/** What the rewriters of expr.c leave behind, part by part. */
module ExprLaws {
  import opened Options
  import opened Exprs
  import opened ExprSimplify
  import opened ExprEq
  import opened ExprAc
  import opened ExprSuperset

  // x is e or stands somewhere below it.
  predicate IsPart(x: Expr, e: Expr) {
    x == e ||
    match e
    case Not(a) => IsPart(x, a)
    case Bin(_, l, r) => IsPart(x, l) || IsPart(x, r)
    case _ => false
  }

  // e mentions s: alone, or on either side of a comparison.
  ghost predicate Mentions(e: Expr, s: Sym) {
    exists x :: IsPart(x, e) && (x == Symbol(s) || (x.Comp? && (x.lhs == s || x.rhs == s)))
  }

  lemma {:induction false} SymsAreMentioned(e: Expr, s: Sym)
    ensures s in Syms(e) <==> Mentions(e, s)
  {
    assert IsPart(e, e);
    match e
    case Not(a) =>
      SymsAreMentioned(a, s);
      assert forall x :: IsPart(x, e) <==> x == e || IsPart(x, a);
    case Bin(_, l, r) =>
      SymsAreMentioned(l, s);
      SymsAreMentioned(r, s);
      assert forall x :: IsPart(x, e) <==> x == e || IsPart(x, l) || IsPart(x, r);
    case Symbol(_) =>
    case Comp(_, _, _) =>
  }

  // ---------- expr_transform ----------

  // A negation of anything but an allocated symbol, or a bool symbol compared
  // for equality with y, m or n.
  predicate IsAbnormal(x: Expr) {
    || (x.Not? && !(x.arg.Symbol? && x.arg.sym.Named?))
    || (x.Comp? && (x.rel == EQ || x.rel == NE) && x.lhs.Type() == Boolean && x.rhs in {SymYes, SymMod, SymNo})
  }

  /** The trees that expr_transform leaves alone. */
  lemma {:induction false} NormalMeans(e: Expr)
    ensures IsNormal(e) <==> forall x :: IsPart(x, e) ==> !IsAbnormal(x)
  {
    assert IsPart(e, e);
    match e
    case Not(a) =>
      NormalMeans(a);
      assert IsNormal(e) ==> IsNormal(a);
      assert IsNormal(e) <==> !IsAbnormal(e);
      assert forall x :: IsPart(x, e) <==> x == e || IsPart(x, a);
    case Bin(_, l, r) =>
      NormalMeans(l);
      NormalMeans(r);
      assert forall x :: IsPart(x, e) <==> x == e || IsPart(x, l) || IsPart(x, r);
    case Symbol(_) =>
    case Comp(_, _, _) =>
      assert IsNormal(e) <==> !IsAbnormal(e);
      assert forall x :: IsPart(x, e) <==> x == e;
  }

  /** So expr_transform leaves none of those. */
  lemma TransformLeavesNone(e: Expr, x: Expr)
    ensures IsPart(x, Transform(e)) ==> !IsAbnormal(x)
  {
    TransformIsNormal(e);
    NormalMeans(Transform(e));
  }

  // ---------- expr_trans_bool ----------

  // A tristate symbol compared with n.
  predicate IsTestForN(x: Expr) { x.Comp? && x.rel == NE && x.lhs.Type() == Tristate && x.rhs == SymNo }

  /** No tristate symbol is tested for being other than n any more, and trees
      without such a test stay. */
  lemma {:induction false} TransBoolRemoves(e: Expr)
    ensures forall x :: IsPart(x, TransBool(e)) ==> !IsTestForN(x)
    ensures (forall x :: IsPart(x, e) ==> !IsTestForN(x)) ==> TransBool(e) == e
  {
    assert IsPart(e, e);
    match e
    case Not(a) =>
      TransBoolRemoves(a);
      assert forall x :: IsPart(x, e) <==> x == e || IsPart(x, a);
    case Bin(_, l, r) =>
      TransBoolRemoves(l);
      TransBoolRemoves(r);
      assert forall x :: IsPart(x, e) <==> x == e || IsPart(x, l) || IsPart(x, r);
    case Symbol(_) =>
    case Comp(_, _, _) =>
  }

  // ---------- expr_eliminate_eq ----------

  // The operand that decides e's operator op is among its operands.
  predicate HasZero(op: Op, e: Expr) {
    if HasOp(e, op) then HasZero(op, e.left) || HasZero(op, e.right) else e == Zero(op)
  }

  lemma {:induction false} ZeroIsKept(op: Op, e1: Expr, e2: Expr)
    ensures HasZero(op, e1) ==> HasZero(op, EliminateEq1(op, e1, e2).0)
    ensures HasZero(op, e2) ==> HasZero(op, EliminateEq1(op, e1, e2).1)
    decreases Size(e1) + Size(e2)
  {
    if HasOp(e1, op) {
      var p := EliminateEq1(op, e1.left, e2);
      ZeroIsKept(op, e1.left, e2);
      ZeroIsKept(op, e1.right, p.1);
    } else if HasOp(e2, op) {
      var p := EliminateEq1(op, e1, e2.left);
      ZeroIsKept(op, e1, e2.left);
      ZeroIsKept(op, p.0, e2.right);
    } else {
      LeafStep(op, e1, e2);
      if e1 == Zero(op) || e2 == Zero(op) {
        ZeroEqualsItself(op, e1, e2);
      }
    }
  }

  lemma ZeroEqualsItself(op: Op, e1: Expr, e2: Expr)
    requires e1 == Zero(op) || e2 == Zero(op)
    ensures Equal(e1, e2) ==> e1 == e2
  {}

  lemma {:induction false} ZeroDecides(op: Op, e: Expr)
    requires HasZero(op, e)
    ensures EliminateYn(e) == Zero(op)
  {
    if HasOp(e, op) {
      if HasZero(op, e.left) {
        ZeroDecides(op, e.left);
      } else {
        ZeroDecides(op, e.right);
      }
    }
  }

  /** y and n are not cancelled: a tree that one of them decides stays decided,
      whatever the other tree is. */
  lemma DecidedStays(e1: Expr, e2: Expr)
    requires e1.Bin? && HasOp(e2, e1.op)
    ensures HasZero(e1.op, e1) ==> EliminateEq(e1, e2).0 == Zero(e1.op)
    ensures HasZero(e1.op, e2) ==> EliminateEq(e1, e2).1 == Zero(e1.op)
  {
    var op, p := e1.op, EliminateEq1(e1.op, e1, e2);
    hide EliminateEq1, EliminateEq, EliminateYn, HasZero;
    SameOpCancelsOnce(e1, e2);
    ZeroIsKept(op, e1, e2);
    if HasZero(op, p.0) { ZeroDecides(op, p.0); }
    if HasZero(op, p.1) { ZeroDecides(op, p.1); }
  }

  /** The second pass: a tree that is an operand of the other one's operator is
      cancelled there, once; nothing else is. */
  lemma SecondPassCancels(e1: Expr, e2: Expr)
    requires YnFree(e1) && YnFree(e2) && e2.Bin? && !HasOp(e1, e2.op)
    requires e1.Bin? ==> CanonOf(e2) !in Operands(e1.op, e1)
    ensures var p, op := EliminateEq(e1, e2), e2.op;
      && IsRest(op, multiset{CanonOf(e1)} - Operands(op, e2), p.0)
      && IsRest(op, Operands(op, e2) - multiset{CanonOf(e1)}, p.1)
  {
    hide EliminateEq1, EliminateEq, EliminateYn, Operands, CanonOf, IsRest, YnFree, Live, PartlyCancelled;
    var op, p := e2.op, EliminateEq1(e2.op, e1, e2);
    FirstPassIsIdle(e1, e2);
    YnFreeIsUncancelled(op, e1);
    YnFreeIsUncancelled(op, e2);
    YnFreeIsLive(op, e1);
    YnFreeIsLive(op, e2);
    CancellingIsDifference(op, e1, e2);
    RestAfterCancelling(op, p.0);
    RestAfterCancelling(op, p.1);
    LeafOperands(op, e1);
  }

  lemma LeafOperands(op: Op, e: Expr)
    requires !HasOp(e, op)
    ensures Operands(op, e) == multiset{CanonOf(e)}
  {}

  lemma FirstPassIsIdle(e1: Expr, e2: Expr)
    requires YnFree(e1) && YnFree(e2) && e2.Bin? && !HasOp(e1, e2.op)
    requires e1.Bin? ==> CanonOf(e2) !in Operands(e1.op, e1)
    ensures var p := EliminateEq1(e2.op, e1, e2);
      EliminateEq(e1, e2) == (EliminateYn(p.0), EliminateYn(p.1))
  {
    hide EliminateEq1, EliminateYn, Operands, CanonOf, YnFree, Live, PartlyCancelled;
    if e1.Bin? {
      var op, p := e1.op, EliminateEq1(e1.op, e1, e2);
      YnFreeIsUncancelled(op, e1);
      YnFreeIsUncancelled(op, e2);
      YnFreeIsLive(op, e1);
      YnFreeIsLive(op, e2);
      CancellingIsDifference(op, e1, e2);
      LeafOperands(op, e2);
      LeafIsCancelledOnce(op, e1, e2);
      LiveLeaf(op, Unit(op));
      assert CanonOf(e2) in Live(op, p.1);
    }
    assert Pass(e1, e1, e2) == (e1, e2);
    assert SecondPass(e1, e2) == Pass(e2, e1, e2) == EliminateEq1(e2.op, e1, e2);
    assert BothPasses(e1, e2) == EliminateEq1(e2.op, e1, e2);
  }

  /** NULL is equal to NULL and to the symbol y only. */
  lemma NullIsYes(e1: ExprPtr, e2: ExprPtr)
    ensures e1.None? ==> (EqualPtr(e1, e2) <==> e2 == None || e2 == Some(Symbol(SymYes)))
    ensures e2.None? ==> (EqualPtr(e1, e2) <==> e1 == None || e1 == Some(Symbol(SymYes)))
    ensures e1.Some? && e2.Some? ==> (EqualPtr(e1, e2) <==> Equal(e1.value, e2.value))
  {}
}
