/** expr_eq decides equality up to the order and grouping of operands. */
module ExprAc {
  import opened Options
  import opened Exprs
  import opened ExprSimplify
  import opened ExprEq

  /** A tree with the order and grouping of its operands forgotten: the operands
      of one level of && or || form a multiset. */
  datatype Canon =
    | CSymbol(sym: Sym)
    | CComp(rel: Rel, lhs: Sym, rhs: Sym)
    | CNot(arg: Canon)
    | CBin(op: Op, operands: multiset<Canon>)

  function CanonOf(e: Expr): Canon
    decreases e, 1
  {
    match e
    case Symbol(s) => CSymbol(s)
    case Comp(rel, l, r) => CComp(rel, l, r)
    case Not(a) => CNot(CanonOf(a))
    case Bin(op, _, _) => CBin(op, Operands(op, e))
  }

  function Operands(op: Op, e: Expr): multiset<Canon>
    decreases e, if HasOp(e, op) then 0 else 2
  {
    if HasOp(e, op) then Operands(op, e.left) + Operands(op, e.right)
    else multiset{CanonOf(e)}
  }

  // The symbols y and n do not stand alone anywhere in e.
  predicate YnFree(e: Expr) {
    match e
    case Symbol(s) => s != SymYes && s != SymNo
    case Comp(_, _, _) => true
    case Not(a) => YnFree(a)
    case Bin(_, l, r) => YnFree(l) && YnFree(r)
  }

  // During a pass the operands of e are original ones or already cancelled.
  predicate PartlyCancelled(op: Op, e: Expr) {
    if HasOp(e, op) then PartlyCancelled(op, e.left) && PartlyCancelled(op, e.right)
    else e == Unit(op) || YnFree(e)
  }

  // The operands that have not been cancelled.
  function Live(op: Op, e: Expr): multiset<Canon> {
    if HasOp(e, op) then Live(op, e.left) + Live(op, e.right)
    else if e == Unit(op) then multiset{}
    else multiset{CanonOf(e)}
  }

  lemma {:induction false} YnFreeIsUncancelled(op: Op, e: Expr)
    requires YnFree(e)
    ensures PartlyCancelled(op, e)
  {
    if e.Bin? {
      YnFreeIsUncancelled(op, e.left);
      YnFreeIsUncancelled(op, e.right);
    }
  }

  lemma {:induction false} YnFreeIsLive(op: Op, e: Expr)
    requires YnFree(e)
    ensures Live(op, e) == Operands(op, e)
  {
    if HasOp(e, op) {
      YnFreeIsLive(op, e.left);
      YnFreeIsLive(op, e.right);
    }
  }

  lemma {:induction false} YnFreeIsSimplified(e: Expr)
    requires YnFree(e)
    ensures EliminateYn(e) == e
  {
    if e.Bin? {
      YnFreeIsSimplified(e.left);
      YnFreeIsSimplified(e.right);
    }
  }

  lemma DifferenceComposes(l: multiset<Canon>, r: multiset<Canon>, e: multiset<Canon>)
    ensures (l - e) + (r - (e - l)) == (l + r) - e
    ensures (e - l) - r == e - (l + r)
  {}

  predicate CancelsTo(op: Op, a: Expr, b: Expr, a': Expr) {
    PartlyCancelled(op, a') && Live(op, a') == Live(op, a) - Live(op, b)
  }

  /** Greedy pairwise cancellation is multiset difference, both ways. */
  lemma {:induction false} CancellingIsDifference(op: Op, e1: Expr, e2: Expr)
    requires PartlyCancelled(op, e1) && PartlyCancelled(op, e2)
    ensures var p := EliminateEq1(op, e1, e2);
      CancelsTo(op, e1, e2, p.0) && CancelsTo(op, e2, e1, p.1)
    decreases Size(e1) + Size(e2), if HasOp(e1, op) || HasOp(e2, op) then 0 else 6
  {
    var p := EliminateEq1(op, e1, e2);
    if HasOp(e1, op) {
      var p1 := EliminateEq1(op, e1.left, e2);
      var p2 := EliminateEq1(op, e1.right, p1.1);
      assert p == (Bin(op, p1.0, p2.0), p2.1);
      CancellingIsDifference(op, e1.left, e2);
      CancellingIsDifference(op, e1.right, p1.1);
      DifferenceComposes(Live(op, e1.left), Live(op, e1.right), Live(op, e2));
      JoinLive(op, e1);
      JoinLive(op, p.0);
    } else if HasOp(e2, op) {
      var p1 := EliminateEq1(op, e1, e2.left);
      var p2 := EliminateEq1(op, p1.0, e2.right);
      assert p == (p2.0, Bin(op, p1.1, p2.1));
      CancellingIsDifference(op, e1, e2.left);
      CancellingIsDifference(op, p1.0, e2.right);
      DifferenceComposes(Live(op, e2.left), Live(op, e2.right), Live(op, e1));
      JoinLive(op, e2);
      JoinLive(op, p.1);
    } else {
      CancellingLeaves(op, e1, e2);
    }
  }

  lemma JoinLive(op: Op, e: Expr)
    requires HasOp(e, op)
    ensures Live(op, e) == Live(op, e.left) + Live(op, e.right)
    ensures PartlyCancelled(op, e) <==> PartlyCancelled(op, e.left) && PartlyCancelled(op, e.right)
  {}

  lemma {:induction false} CancellingLeaves(op: Op, e1: Expr, e2: Expr)
    requires PartlyCancelled(op, e1) && PartlyCancelled(op, e2)
    requires !HasOp(e1, op) && !HasOp(e2, op)
    ensures var p := EliminateEq1(op, e1, e2);
      CancelsTo(op, e1, e2, p.0) && CancelsTo(op, e2, e1, p.1)
    decreases Size(e1) + Size(e2), 6, 0
  {
    LeafStep(op, e1, e2);
    LiveLeaf(op, e1);
    LiveLeaf(op, e2);
    LiveLeaf(op, Unit(op));
    hide EliminateEq1, Equal, Live, CanonOf, YnFree;
    if e1 == Unit(op) || e2 == Unit(op) {
      UnitMatchesNothing(op, e1, e2);
      assert EliminateEq1(op, e1, e2) == (e1, e2);
      DifferenceWithEmpty(Live(op, e1));
      DifferenceWithEmpty(Live(op, e2));
    } else {
      EqualIsCanonEquality(e1, e2);
      DifferenceOfSingletons(CanonOf(e1), CanonOf(e2));
      DifferenceOfSingletons(CanonOf(e2), CanonOf(e1));
    }
  }

  lemma DifferenceWithEmpty(a: multiset<Canon>)
    ensures a - multiset{} == a && multiset{} - a == multiset{}
  {}

  lemma LiveLeaf(op: Op, e: Expr)
    requires !HasOp(e, op)
    ensures Live(op, e) == if e == Unit(op) then multiset{} else multiset{CanonOf(e)}
  {}

  lemma LeafStep(op: Op, e1: Expr, e2: Expr)
    requires !HasOp(e1, op) && !HasOp(e2, op)
    ensures EliminateEq1(op, e1, e2) ==
      if (e1 == e2 && IsYn(e1)) || !Equal(e1, e2) then (e1, e2) else (Unit(op), Unit(op))
  {}

  lemma UnitMatchesNothing(op: Op, e1: Expr, e2: Expr)
    requires e1 == Unit(op) || e2 == Unit(op)
    ensures Equal(e1, e2) ==> e1 == e2
  {}

  lemma DifferenceOfSingletons(a: Canon, b: Canon)
    ensures multiset{a} - multiset{b} == if a == b then multiset{} else multiset{a}
  {}

  /** On trees without the constants y and n, expr_eq holds exactly when the
      trees are the same up to order and grouping. */
  lemma {:induction false} EqualIsCanonEquality(e1: Expr, e2: Expr)
    requires YnFree(e1) && YnFree(e2)
    ensures Equal(e1, e2) <==> CanonOf(e1) == CanonOf(e2)
    decreases Size(e1) + Size(e2), 5
  {
    match e1
    case Symbol(_) =>
    case Comp(_, _, _) =>
    case Not(a) => if e2.Not? { EqualIsCanonEquality(a, e2.arg); }
    case Bin(op, _, _) =>
      if HasOp(e2, op) {
        var p := EliminateEq1(op, e1, e2);
        SameOpCancelsOnce(e1, e2);
        YnFreeIsUncancelled(op, e1);
        YnFreeIsUncancelled(op, e2);
        YnFreeIsLive(op, e1);
        YnFreeIsLive(op, e2);
        CancellingIsDifference(op, e1, e2);
        RestAfterCancelling(op, p.0);
        RestAfterCancelling(op, p.1);
        NoCommonRest(Operands(op, e1), Operands(op, e2), CanonOf(EliminateYn(p.0)));
      }
  }

  lemma NoCommonRest(a: multiset<Canon>, b: multiset<Canon>, c: Canon)
    ensures !(a - b == multiset{c} == b - a)
    ensures a - b == multiset{} == b - a <==> a == b
  {
    assert (a - b)[c] == 0 || (b - a)[c] == 0;
    if a - b == multiset{} == b - a {
      forall x ensures a[x] == b[x] {
        assert (a - b)[x] == 0 && (b - a)[x] == 0;
      }
    }
  }

  ghost predicate IsRest(op: Op, live: multiset<Canon>, x: Expr) {
    if live == multiset{} then x == Unit(op) else YnFree(x) && Operands(op, x) == live
  }

  /** Constant elimination after a pass leaves y (n for ||) if everything was
      cancelled, and otherwise exactly the live operands. */
  lemma {:induction false} RestAfterCancelling(op: Op, e: Expr)
    requires PartlyCancelled(op, e)
    ensures IsRest(op, Live(op, e), EliminateYn(e))
  {
    if HasOp(e, op) {
      RestAfterCancelling(op, e.left);
      RestAfterCancelling(op, e.right);
      JoinLive(op, e);
      JoinRest(op, Live(op, e.left), Live(op, e.right), EliminateYn(e.left), EliminateYn(e.right));
    } else if e != Unit(op) {
      YnFreeIsSimplified(e);
      YnFreeIsLive(op, e);
      assert CanonOf(e) in Live(op, e);
    }
  }

  lemma JoinRest(op: Op, m: multiset<Canon>, n: multiset<Canon>, l: Expr, r: Expr)
    requires IsRest(op, m, l) && IsRest(op, n, r)
    ensures IsRest(op, m + n, FoldYn(op, l, r))
  {
    assert YnFree(l) ==> l != Unit(op) && l != Zero(op);
    assert YnFree(r) ==> r != Unit(op) && r != Zero(op);
    if m == multiset{} {
      assert m + n == n;
    } else if n == multiset{} {
      assert m + n == m;
    } else {
      assert |m + n| > 0;
      BothRemain(op, l, r);
    }
  }

  lemma BothRemain(op: Op, l: Expr, r: Expr)
    requires YnFree(l) && YnFree(r)
    ensures FoldYn(op, l, r) == Bin(op, l, r) && YnFree(Bin(op, l, r))
    ensures Operands(op, Bin(op, l, r)) == Operands(op, l) + Operands(op, r)
  {}

  /** Hence it is an equivalence relation on such trees... */
  lemma EqualIsEquivalence(a: Expr, b: Expr, c: Expr)
    requires YnFree(a) && YnFree(b) && YnFree(c)
    ensures Equal(a, a)
    ensures Equal(a, b) ==> Equal(b, a)
    ensures Equal(a, b) && Equal(b, c) ==> Equal(a, c)
  {
    hide Equal;
    EqualIsCanonEquality(a, a);
    EqualIsCanonEquality(a, b);
    EqualIsCanonEquality(b, a);
    EqualIsCanonEquality(b, c);
    EqualIsCanonEquality(a, c);
  }

  /** ...and order and grouping really are forgotten. */
  lemma OrderAndGroupingIgnored(op: Op, a: Expr, b: Expr, c: Expr)
    requires YnFree(a) && YnFree(b) && YnFree(c)
    ensures Equal(Bin(op, a, b), Bin(op, b, a))
    ensures Equal(Bin(op, a, Bin(op, b, c)), Bin(op, Bin(op, a, b), c))
  {
    hide Equal, Operands;
    EqualIsCanonEquality(Bin(op, a, b), Bin(op, b, a));
    EqualIsCanonEquality(Bin(op, a, Bin(op, b, c)), Bin(op, Bin(op, a, b), c));
    OperandsOfBin(op, a, b);
    OperandsOfBin(op, b, a);
    OperandsOfBin(op, b, c);
    OperandsOfBin(op, a, Bin(op, b, c));
    OperandsOfBin(op, Bin(op, a, b), c);
  }

  lemma OperandsOfBin(op: Op, l: Expr, r: Expr)
    ensures Operands(op, Bin(op, l, r)) == Operands(op, l) + Operands(op, r)
  {}
}
