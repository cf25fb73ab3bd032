/** expr_eq and expr_eliminate_eq: equality by cancelling common operands. */
module ExprEq {
  import opened Options
  import opened Exprs
  import opened ExprSimplify

  predicate HasOp(e: Expr, op: Op) { e.Bin? && e.op == op }

  /** __expr_eliminate_eq: both trees after cancelling their common operands.
      Neither operand tree shares nodes with the other. */
  function EliminateEq1(op: Op, e1: Expr, e2: Expr): (r: (Expr, Expr))
    ensures Size(r.0) <= Size(e1) && Size(r.1) <= Size(e2)
    decreases Size(e1) + Size(e2), if HasOp(e1, op) || HasOp(e2, op) then 0 else 6
  {
    if HasOp(e1, op) then
      var (l, rest) := EliminateEq1(op, e1.left, e2);
      var (r, rest') := EliminateEq1(op, e1.right, rest);
      (Bin(op, l, r), rest')
    else if HasOp(e2, op) then
      var (rest, l) := EliminateEq1(op, e1, e2.left);
      var (rest', r) := EliminateEq1(op, rest, e2.right);
      (rest', Bin(op, l, r))
    else if e1 == e2 && IsYn(e1) then (e1, e2)
    else if !Equal(e1, e2) then (e1, e2)
    else (Unit(op), Unit(op))
  }

  // The pass for the operator on top of e, if there is one.
  function Pass(e: Expr, e1: Expr, e2: Expr): (r: (Expr, Expr))
    requires e == e1 || e == e2
    ensures Size(r.0) <= Size(e1) && Size(r.1) <= Size(e2)
    decreases Size(e1) + Size(e2), 1
  {
    if e.Bin? then EliminateEq1(e.op, e1, e2) else (e1, e2)
  }

  // A second pass runs when the trees now differ on top.
  function SecondPass(e1: Expr, e2: Expr): (r: (Expr, Expr))
    ensures Size(r.0) <= Size(e1) && Size(r.1) <= Size(e2)
    decreases Size(e1) + Size(e2), 2
  {
    if e2.Bin? && !HasOp(e1, e2.op) then Pass(e2, e1, e2) else (e1, e2)
  }

  function BothPasses(e1: Expr, e2: Expr): (Expr, Expr)
    decreases Size(e1) + Size(e2), 3
  {
    var p := Pass(e1, e1, e2);
    SecondPass(p.0, p.1)
  }

  /** expr_eliminate_eq */
  function EliminateEq(e1: Expr, e2: Expr): (Expr, Expr)
    decreases Size(e1) + Size(e2), 4
  {
    var q := BothPasses(e1, e2);
    (EliminateYn(q.0), EliminateYn(q.1))
  }

  /** expr_eq on trees; the And/Or case works on copies. */
  predicate Equal(e1: Expr, e2: Expr)
    decreases Size(e1) + Size(e2), 5
  {
    match e1
    case Symbol(_) => e1 == e2
    case Comp(_, _, _) => e1 == e2
    case Not(a) => e2.Not? && Equal(a, e2.arg)
    case Bin(op, _, _) =>
      HasOp(e2, op) &&
      var (x, y) := EliminateEq(e1, e2);
      x.Symbol? && x == y
  }

  predicate IsYesPtr(e: ExprPtr) { e.None? || e.value == YES_EXPR }

  /** expr_eq; a NULL tree and the symbol y are two ways to write yes. */
  predicate EqualPtr(e1: ExprPtr, e2: ExprPtr) {
    if e1.None? || e2.None? then IsYesPtr(e1) && IsYesPtr(e2)
    else Equal(e1.value, e2.value)
  }

  // ---------- soundness ----------

  // The values x and y are those of a and b combined with a common operand c.
  predicate Factors(op: Op, c: Tri, x: Tri, y: Tri, a: Tri, b: Tri) {
    x == Apply(op, c, a) && y == Apply(op, c, b)
  }

  lemma FactorsCompose(op: Op, c1: Tri, c2: Tri, l: Tri, r: Tri, y: Tri, l': Tri, r': Tri, m: Tri, y': Tri)
    requires Factors(op, c1, l, y, l', m) && Factors(op, c2, r, m, r', y')
    ensures Factors(op, Apply(op, c1, c2), Apply(op, l, r), y, Apply(op, l', r'), y')
  {}

  /** What a pass removes is a common operand c of both trees. */
  lemma {:induction false} CancellingFactors(op: Op, e1: Expr, e2: Expr, v: Valuation) returns (c: Tri)
    requires Consistent(v)
    ensures var p := EliminateEq1(op, e1, e2);
      Factors(op, c, Eval(e1, v), Eval(e2, v), Eval(p.0, v), Eval(p.1, v))
    decreases Size(e1) + Size(e2), if HasOp(e1, op) || HasOp(e2, op) then 0 else 6
  {
    var p := EliminateEq1(op, e1, e2);
    if HasOp(e1, op) {
      var p1 := EliminateEq1(op, e1.left, e2);
      var p2 := EliminateEq1(op, e1.right, p1.1);
      assert p == (Bin(op, p1.0, p2.0), p2.1);
      var c1 := CancellingFactors(op, e1.left, e2, v);
      var c2 := CancellingFactors(op, e1.right, p1.1, v);
      FactorsCompose(op, c1, c2, Eval(e1.left, v), Eval(e1.right, v), Eval(e2, v),
                     Eval(p1.0, v), Eval(p2.0, v), Eval(p1.1, v), Eval(p2.1, v));
      c := Apply(op, c1, c2);
    } else if HasOp(e2, op) {
      var p1 := EliminateEq1(op, e1, e2.left);
      var p2 := EliminateEq1(op, p1.0, e2.right);
      assert p == (p2.0, Bin(op, p1.1, p2.1));
      var c1 := CancellingFactors(op, e1, e2.left, v);
      var c2 := CancellingFactors(op, p1.0, e2.right, v);
      FactorsCompose(op, c1, c2, Eval(e2.left, v), Eval(e2.right, v), Eval(e1, v),
                     Eval(p1.1, v), Eval(p2.1, v), Eval(p1.0, v), Eval(p2.0, v));
      c := Apply(op, c1, c2);
    } else if p == (e1, e2) {
      c := Eval(Unit(op), v);
    } else {
      EqualIsSound(e1, e2, v);
      c := Eval(e1, v);
    }
  }

  /** expr_eq returns true only for trees of equal value. */
  lemma {:induction false} EqualIsSound(e1: Expr, e2: Expr, v: Valuation)
    requires Consistent(v) && Equal(e1, e2)
    ensures Eval(e1, v) == Eval(e2, v)
    decreases Size(e1) + Size(e2), 5
  {
    match e1
    case Symbol(_) =>
    case Comp(_, _, _) =>
    case Not(a) => EqualIsSound(a, e2.arg, v);
    case Bin(op, _, _) =>
      var p := EliminateEq1(op, e1, e2);
      SameOpCancelsOnce(e1, e2);
      var c := CancellingFactors(op, e1, e2, v);
      EliminateYnKeepsValue(p.0, v);
      EliminateYnKeepsValue(p.1, v);
  }

  /** A pass leaves the operators of its own kind in place, so trees with the
      same operator on top get only one pass. */
  lemma {:induction false} SpineStays(op: Op, e1: Expr, e2: Expr)
    ensures HasOp(e1, op) ==> HasOp(EliminateEq1(op, e1, e2).0, op)
    ensures HasOp(e2, op) ==> HasOp(EliminateEq1(op, e1, e2).1, op)
    decreases Size(e1)
  {
    if HasOp(e1, op) {
      var p1 := EliminateEq1(op, e1.left, e2);
      SpineStays(op, e1.left, e2);
      SpineStays(op, e1.right, p1.1);
    }
  }

  lemma SameOpCancelsOnce(e1: Expr, e2: Expr)
    requires e1.Bin? && HasOp(e2, e1.op)
    ensures var p := EliminateEq1(e1.op, e1, e2);
      EliminateEq(e1, e2) == (EliminateYn(p.0), EliminateYn(p.1))
  {
    var p := EliminateEq1(e1.op, e1, e2);
    assert HasOp(p.0, e1.op) && HasOp(p.1, e1.op) by {
      SpineStays(e1.op, e1, e2);
    }
    assert BothPasses(e1, e2) == p by {
      assert Pass(e1, e1, e2) == p;
      NoSecondPass(p.0, p.1);
    }
  }

  lemma NoSecondPass(e1: Expr, e2: Expr)
    requires e1.Bin? && HasOp(e2, e1.op)
    ensures SecondPass(e1, e2) == (e1, e2)
  {}

  lemma PassReflectsOrder(e: Expr, e1: Expr, e2: Expr, v: Valuation)
    requires Consistent(v) && (e == e1 || e == e2)
    requires Eval(Pass(e, e1, e2).0, v) <= Eval(Pass(e, e1, e2).1, v)
    ensures Eval(e1, v) <= Eval(e2, v)
  {
    if e.Bin? {
      var c := CancellingFactors(e.op, e1, e2, v);
    }
  }

  lemma SecondPassReflectsOrder(e1: Expr, e2: Expr, v: Valuation)
    requires Consistent(v)
    requires Eval(SecondPass(e1, e2).0, v) <= Eval(SecondPass(e1, e2).1, v)
    ensures Eval(e1, v) <= Eval(e2, v)
  {
    if SecondPass(e1, e2) != (e1, e2) {
      PassReflectsOrder(e2, e1, e2, v);
    }
  }

  lemma PassesReflectOrder(e1: Expr, e2: Expr, v: Valuation)
    requires Consistent(v)
    requires Eval(BothPasses(e1, e2).0, v) <= Eval(BothPasses(e1, e2).1, v)
    ensures Eval(e1, v) <= Eval(e2, v)
  {
    var p := Pass(e1, e1, e2);
    SecondPassReflectsOrder(p.0, p.1, v);
    PassReflectsOrder(e1, e1, e2, v);
  }

  /** Whatever remains of two trees after expr_eliminate_eq, both passes
      included, compares as the trees themselves did. */
  lemma EliminateEqReflectsOrder(e1: Expr, e2: Expr, v: Valuation)
    requires Consistent(v)
    requires Eval(EliminateEq(e1, e2).0, v) <= Eval(EliminateEq(e1, e2).1, v)
    ensures Eval(e1, v) <= Eval(e2, v)
  {
    var q := BothPasses(e1, e2);
    EliminateYnKeepsValue(q.0, v);
    EliminateYnKeepsValue(q.1, v);
    PassesReflectOrder(e1, e2, v);
  }

  /** menu_finalize's superset test: if nothing but y is left of the second
      tree, the first is below it under every valuation. */
  lemma SupersetTestIsSound(e1: Expr, e2: Expr, v: Valuation)
    requires Consistent(v) && EliminateEq(e1, e2).1 == YES_EXPR
    ensures Eval(e1, v) <= Eval(e2, v)
  {
    EliminateEqReflectsOrder(e1, e2, v);
  }
}
