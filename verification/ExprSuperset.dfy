/** menu_finalize's superset test on simplified trees: when cancelling leaves y
    of the second one. */
module ExprSuperset {
  import opened Exprs
  import opened ExprSimplify
  import opened ExprEq
  import opened ExprAc

  // A tree is y, n, or free of both.
  predicate IsReduced(e: Expr) { IsYn(e) || YnFree(e) }

  // Against a leaf, a pass cancels everything of the leaf or nothing at all.
  lemma {:induction false} LeafIsCancelledOnce(op: Op, e1: Expr, e2: Expr)
    requires !HasOp(e2, op)
    ensures EliminateEq1(op, e1, e2) == (e1, e2) || EliminateEq1(op, e1, e2).1 == Unit(op)
    decreases e1
  {
    if HasOp(e1, op) {
      var p := EliminateEq1(op, e1.left, e2);
      LeafIsCancelledOnce(op, e1.left, e2);
      LeafIsCancelledOnce(op, e1.right, p.1);
      assert EliminateEq1(op, e1, e2).1 == EliminateEq1(op, e1.right, p.1).1;
    } else {
      LeafStep(op, e1, e2);
    }
  }

  lemma OperatorStays(op: Op, e1: Expr, e2: Expr)
    ensures HasOp(e1, op) ==> HasOp(EliminateEq1(op, e1, e2).0, op)
    ensures HasOp(e2, op) && !HasOp(e1, op) ==> HasOp(EliminateEq1(op, e1, e2).1, op)
  {}

  lemma {:induction false} SecondStays(op: Op, e1: Expr, e2: Expr)
    requires HasOp(e2, op)
    ensures HasOp(EliminateEq1(op, e1, e2).1, op)
    decreases e1
  {
    if HasOp(e1, op) {
      var p := EliminateEq1(op, e1.left, e2);
      SecondStays(op, e1.left, e2);
      SecondStays(op, e1.right, p.1);
      assert EliminateEq1(op, e1, e2).1 == EliminateEq1(op, e1.right, p.1).1;
    } else {
      OperatorStays(op, e1, e2);
    }
  }

  lemma {:induction false} OperandsCount(op: Op, e: Expr)
    ensures |Operands(op, e)| >= if HasOp(e, op) then 2 else 1
  {
    if HasOp(e, op) {
      OperandsCount(op, e.left);
      OperandsCount(op, e.right);
    }
  }

  // y and n cancel nothing of a tree without them.
  lemma {:induction false} ConstantCancelsNothing(op: Op, e1: Expr, e2: Expr)
    requires IsYn(e1) && YnFree(e2)
    ensures EliminateEq1(op, e1, e2) == (e1, e2)
    decreases e2
  {
    if HasOp(e2, op) {
      ConstantCancelsNothing(op, e1, e2.left);
      ConstantCancelsNothing(op, e1, e2.right);
    } else {
      LeafStep(op, e1, e2);
    }
  }

  /** What a pass with a leaf leaves of a conjunction is never y... */
  lemma LeafLeavesSome(e1: Expr, e2: Expr)
    requires IsReduced(e1) && !HasOp(e1, AndOp) && YnFree(e2) && HasOp(e2, AndOp)
    ensures EliminateYn(EliminateEq1(AndOp, e1, e2).1) != YES_EXPR
  {
    if IsYn(e1) {
      ConstantCancelsNothing(AndOp, e1, e2);
      YnFreeIsSimplified(e2);
    } else {
      var p := EliminateEq1(AndOp, e1, e2);
      YnFreeIsUncancelled(AndOp, e1);
      YnFreeIsUncancelled(AndOp, e2);
      YnFreeIsLive(AndOp, e1);
      YnFreeIsLive(AndOp, e2);
      CancellingIsDifference(AndOp, e1, e2);
      OperandsCount(AndOp, e2);
      assert |Operands(AndOp, e2) - multiset{CanonOf(e1)}| >= 1;
      RestAfterCancelling(AndOp, p.1);
    }
  }

  /** ...and what a pass for || leaves of any tree neither. */
  lemma OrPassLeavesSome(e1: Expr, e2: Expr)
    requires IsReduced(e1) && YnFree(e2)
    ensures EliminateYn(EliminateEq1(OrOp, e1, e2).1) != YES_EXPR
  {
    if IsYn(e1) {
      ConstantCancelsNothing(OrOp, e1, e2);
      YnFreeIsSimplified(e2);
    } else {
      YnFreeIsUncancelled(OrOp, e1);
      YnFreeIsUncancelled(OrOp, e2);
      CancellingIsDifference(OrOp, e1, e2);
      RestAfterCancelling(OrOp, EliminateEq1(OrOp, e1, e2).1);
    }
  }

  // The second tree after the first pass and after both.
  function FirstLeaves(e1: Expr, e2: Expr): (Expr, Expr) {
    if e1.Bin? then EliminateEq1(e1.op, e1, e2) else (e1, e2)
  }

  function SecondLeaves(e1: Expr, e2: Expr): Expr {
    if e2.Bin? && !HasOp(e1, e2.op) then EliminateEq1(e2.op, e1, e2).1 else e2
  }

  lemma PassesLeave(e1: Expr, e2: Expr)
    ensures EliminateEq(e1, e2).1 == EliminateYn(SecondLeaves(FirstLeaves(e1, e2).0, FirstLeaves(e1, e2).1))
  {
    hide EliminateEq1, EliminateYn;
    var p := FirstLeaves(e1, e2);
    assert Pass(e1, e1, e2) == p;
    assert SecondPass(p.0, p.1).1 == SecondLeaves(p.0, p.1);
    assert BothPasses(e1, e2) == SecondPass(p.0, p.1);
  }

  // The constant n stays, unless a conjunction is in front of it.
  lemma NoStays(e1: Expr)
    requires IsReduced(e1) && !HasOp(e1, AndOp)
    ensures EliminateEq(e1, NO_EXPR).1 != YES_EXPR
  {
    PassesLeave(e1, NO_EXPR);
    if e1.Bin? {
      LeafIsCancelledOnce(OrOp, e1, NO_EXPR);
    }
    hide EliminateEq1, EliminateEq;
    assert EliminateYn(NO_EXPR) == NO_EXPR;
  }

  /** Only a conjunction has other supersets than y. */
  lemma OnlyConjunctionsPass(e1: Expr, e2: Expr)
    requires IsReduced(e1) && IsReduced(e2) && !HasOp(e1, AndOp)
    ensures EliminateEq(e1, e2).1 == YES_EXPR ==> e2 == YES_EXPR
  {
    hide EliminateEq1, EliminateEq, YnFree, EliminateYn;
    if e2 == NO_EXPR {
      NoStays(e1);
    } else if YnFree(e2) {
      if e1.Bin? {
        PassesFromOr(e1, e2);
      } else {
        PassesFromLeaf(e1, e2);
      }
    }
  }

  lemma PassesFromLeaf(e1: Expr, e2: Expr)
    requires IsReduced(e1) && !e1.Bin? && YnFree(e2)
    ensures EliminateEq(e1, e2).1 != YES_EXPR
  {
    PassesLeave(e1, e2);
    hide EliminateEq1, EliminateEq, EliminateYn;
    if HasOp(e2, AndOp) {
      LeafLeavesSome(e1, e2);
    } else if e2.Bin? {
      OrPassLeavesSome(e1, e2);
    } else {
      YnFreeIsSimplified(e2);
    }
  }

  lemma PassesFromOr(e1: Expr, e2: Expr)
    requires YnFree(e1) && HasOp(e1, OrOp) && YnFree(e2)
    ensures EliminateEq(e1, e2).1 != YES_EXPR
  {
    PassesLeave(e1, e2);
    OrPassLeavesSome(e1, e2);
    hide EliminateEq1, EliminateEq, EliminateYn;
    OperatorStays(OrOp, e1, e2);
    if HasOp(e2, OrOp) {
      SecondStays(OrOp, e1, e2);
    } else {
      LeafIsCancelledOnce(OrOp, e1, e2);
      if HasOp(e2, AndOp) {
        LeafLeavesSome(e1, e2);
      }
    }
  }

  /** A conjunction is its own superset. */
  lemma ConjunctionPasses(e: Expr)
    requires YnFree(e) && HasOp(e, AndOp)
    ensures EliminateEq(e, e).1 == YES_EXPR
  {
    PassesLeave(e, e);
    YnFreeIsUncancelled(AndOp, e);
    CancellingIsDifference(AndOp, e, e);
    OperatorStays(AndOp, e, e);
    SecondStays(AndOp, e, e);
    RestAfterCancelling(AndOp, EliminateEq1(AndOp, e, e).1);
  }
}
