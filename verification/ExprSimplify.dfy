/** The single-tree rewriters of expr.c: constant elimination, negation
    push-down, comparison insertion and the bool relaxation. */
module ExprSimplify {
  import opened Options
  import opened Exprs

  // ---------- expr_eliminate_yn ----------

  // One operator node whose operands have been simplified.
  function FoldYn(op: Op, l: Expr, r: Expr): Expr {
    if l == Zero(op) then Zero(op)
    else if l == Unit(op) then r
    else if r == Zero(op) then Zero(op)
    else if r == Unit(op) then l
    else Bin(op, l, r)
  }

  function EliminateYn(e: Expr): Expr {
    if e.Bin? then FoldYn(e.op, EliminateYn(e.left), EliminateYn(e.right)) else e
  }

  predicate IsYn(e: Expr) { e == YES_EXPR || e == NO_EXPR }

  /** Some operator reachable through operators only has y or n as operand. */
  predicate HasYnOperand(e: Expr) {
    e.Bin? && (IsYn(e.left) || IsYn(e.right) || HasYnOperand(e.left) || HasYnOperand(e.right))
  }

  lemma {:induction false} EliminateYnKeepsValue(e: Expr, v: Valuation)
    requires Consistent(v)
    ensures Eval(EliminateYn(e), v) == Eval(e, v)
  {
    if e.Bin? {
      EliminateYnKeepsValue(e.left, v);
      EliminateYnKeepsValue(e.right, v);
    }
  }

  /** No operand y or n is left, and one that was there made the tree shrink. */
  lemma {:induction false} EliminateYnRemoves(e: Expr)
    ensures !HasYnOperand(EliminateYn(e))
    ensures Size(EliminateYn(e)) <= Size(e)
    ensures HasYnOperand(e) ==> Size(EliminateYn(e)) < Size(e)
    ensures !HasYnOperand(e) ==> EliminateYn(e) == e
  {
    if e.Bin? {
      EliminateYnRemoves(e.left);
      EliminateYnRemoves(e.right);
    }
  }

  // ---------- expr_transform ----------

  function Dual(op: Op): Op { if op.AndOp? then OrOp else AndOp }

  function NegateRel(rel: Rel): Rel {
    match rel
    case EQ => NE
    case NE => EQ
    case LT => GE
    case LE => GT
    case GT => LE
    case GE => LT
  }

  // A bool symbol tested for equality with y, m or n.
  predicate IsBoolTest(rel: Rel, l: Sym, r: Sym) {
    (rel.EQ? || rel.NE?) && l.Type().Boolean? && r.IsTriConst()
  }

  function TransformComp(rel: Rel, l: Sym, r: Sym): Expr {
    if !IsBoolTest(rel, l, r) then Comp(rel, l, r)
    else if r.SymMod? then (if rel.EQ? then NO_EXPR else YES_EXPR)
    else if rel.EQ? == r.SymYes? then Symbol(l)
    else Not(Symbol(l))
  }

  // Termination: NOT doubles, so pushing it inwards makes a tree lighter.
  function Weight(e: Expr): (w: nat)
    ensures w > 0
  {
    match e
    case Symbol(_) => 1
    case Comp(_, _, _) => 2
    case Not(a) => 2 * Weight(a)
    case Bin(_, l, r) => 1 + Weight(l) + Weight(r)
  }

  function DeMorgan(op: Op, l: Expr, r: Expr): (e: Expr)
    ensures Weight(e) < Weight(Not(Bin(op, l, r)))
    ensures forall v: Valuation :: Eval(e, v) == Eval(Not(Bin(op, l, r)), v)
  {
    assert Weight(Not(Bin(op, l, r))) == 2 * Weight(Bin(op, l, r));
    assert Weight(Not(l)) == 2 * Weight(l) && Weight(Not(r)) == 2 * Weight(r);
    assert forall v: Valuation ::
      Eval(Not(l), v) == Negate(Eval(l, v)) && Eval(Not(r), v) == Negate(Eval(r, v));
    Bin(Dual(op), Not(l), Not(r))
  }

  function TransformSymbolNot(s: Sym): Expr {
    match s
    case SymYes => NO_EXPR
    case SymMod => Symbol(SymMod)
    case SymNo => YES_EXPR
    case Named(_, _, _) => Not(Symbol(s))
  }

  function Transform(e: Expr): (r: Expr)
    ensures Weight(r) <= Weight(e)
    decreases Weight(e)
  {
    match e
    case Symbol(_) => e
    case Comp(rel, l, r) => TransformComp(rel, l, r)
    case Bin(op, l, r) => Bin(op, Transform(l), Transform(r))
    case Not(a) =>
      var b := Transform(a);
      match b
      case Not(c) => Transform(c)
      case Comp(rel, l, r) => Comp(NegateRel(rel), l, r)
      case Bin(op, l, r) => Transform(DeMorgan(op, l, r))
      case Symbol(s) => TransformSymbolNot(s)
  }

  /** NOT stands only on an allocated symbol, and no bool test is left. */
  predicate IsNormal(e: Expr) {
    match e
    case Symbol(_) => true
    case Comp(rel, l, r) => !IsBoolTest(rel, l, r)
    case Bin(_, l, r) => IsNormal(l) && IsNormal(r)
    case Not(a) => a.Symbol? && a.sym.Named?
  }

  lemma TransformCompKeepsValue(rel: Rel, l: Sym, r: Sym, v: Valuation)
    requires Consistent(v)
    ensures Eval(TransformComp(rel, l, r), v) == Eval(Comp(rel, l, r), v)
  {}

  lemma {:induction false} TransformKeepsValue(e: Expr, v: Valuation)
    requires Consistent(v)
    ensures Eval(Transform(e), v) == Eval(e, v)
    decreases Weight(e)
  {
    match e
    case Symbol(_) =>
    case Comp(rel, l, r) => TransformCompKeepsValue(rel, l, r, v);
    case Bin(_, l, r) => TransformKeepsValue(l, v); TransformKeepsValue(r, v);
    case Not(a) =>
      TransformKeepsValue(a, v);
      match Transform(a)
      case Not(c) => TransformKeepsValue(c, v);
      case Bin(op, l, r) => TransformKeepsValue(DeMorgan(op, l, r), v);
      case Comp(_, _, _) =>
      case Symbol(_) =>
  }

  lemma {:induction false} TransformIsNormal(e: Expr)
    ensures IsNormal(Transform(e))
    decreases Weight(e)
  {
    match e
    case Symbol(_) =>
    case Comp(_, _, _) =>
    case Bin(_, l, r) => TransformIsNormal(l); TransformIsNormal(r);
    case Not(a) =>
      TransformIsNormal(a);
      match Transform(a)
      case Not(c) => TransformIsNormal(c);
      case Bin(op, l, r) => TransformIsNormal(DeMorgan(op, l, r));
      case Comp(_, _, _) =>
      case Symbol(_) =>
  }

  /** The normal trees are exactly the fixed points, so transforming twice is
      transforming once. */
  lemma {:induction false} TransformFixesNormal(e: Expr)
    ensures Transform(e) == e <==> IsNormal(e)
    ensures Transform(Transform(e)) == Transform(e)
  {
    TransformIsNormal(e);
    NormalIsFixed(Transform(e));
    if IsNormal(e) {
      NormalIsFixed(e);
    }
  }

  lemma {:induction false} NormalIsFixed(e: Expr)
    requires IsNormal(e)
    ensures Transform(e) == e
  {
    if e.Bin? {
      NormalIsFixed(e.left);
      NormalIsFixed(e.right);
    }
  }

  // ---------- expr_trans_bool ----------

  function TransBool(e: Expr): Expr {
    match e
    case Bin(op, l, r) => Bin(op, TransBool(l), TransBool(r))
    case Not(a) => Not(TransBool(a))
    case Comp(rel, l, r) => if rel.NE? && l.Type().Tristate? && r.SymNo? then Symbol(l) else e
    case Symbol(_) => e
  }

  // What sym_calc_visibility makes of a prompt that is not tristate.
  function Promote(t: Tri): Tri { if t == MOD then YES else t }

  /** On normal trees the relaxed condition may drop from y to m but never
      becomes or stops being n, so its promoted value is unchanged. */
  lemma {:induction false} TransBoolKeepsPromotedValue(e: Expr, v: Valuation)
    requires Consistent(v) && IsNormal(e)
    ensures Promote(Eval(TransBool(e), v)) == Promote(Eval(e, v))
    ensures Eval(TransBool(e), v) <= Eval(e, v)
  {
    match e
    case Bin(_, l, r) => TransBoolKeepsPromotedValue(l, v); TransBoolKeepsPromotedValue(r, v);
    case Comp(_, _, _) =>
    case Not(_) =>
    case Symbol(_) =>
  }

  // ---------- expr_trans_compare ----------

  // The node comparing the symbol or constant s with c.
  function TestRel(equal: bool): Rel { if equal then EQ else NE }

  function NotIf(b: bool, e: Expr): Expr { if b then Not(e) else e }

  /** Type is E_EQUAL when `equal` holds, E_UNEQUAL otherwise. */
  function TransCompare(e: Expr, equal: bool, c: Sym): Expr
    requires c == SymYes || c == SymNo
  {
    match e
    case Bin(op, l, r) =>
      var l', r' := TransCompare(l, true, c), TransCompare(r, true, c);
      NotIf(!equal, Bin(if c == SymYes then op else Dual(op), l', r'))
    case Not(a) => TransCompare(a, !equal, c)
    case Comp(_, _, _) => NotIf(equal != (c == SymYes), e)
    case Symbol(s) => Comp(TestRel(equal), s, c)
  }

  function TransComparePtr(e: ExprPtr, equal: bool, c: Sym): Expr
    requires c == SymYes || c == SymNo
  {
    match e
    case None => NotIf(!equal, Symbol(c))
    case Some(x) => TransCompare(x, equal, c)
  }

  // Every symbol standing alone is bool, tristate or one of y, m, n.
  predicate IsLogicalExpr(e: Expr) {
    match e
    case Symbol(s) => s.IsLogical() || s.IsTriConst()
    case Not(a) => IsLogicalExpr(a)
    case Bin(_, l, r) => IsLogicalExpr(l) && IsLogicalExpr(r)
    case Comp(_, _, _) => true
  }

  // Some symbol under a NOT has the value m.
  predicate NegatesMod(e: Expr, v: Valuation) {
    match e
    case Not(a) => Eval(a, v) == MOD
    case Bin(_, l, r) => NegatesMod(l, v) || NegatesMod(r, v)
    case _ => false
  }

  // The tests of two operands, put together for their operator.
  lemma TestsCombine(op: Op, c: Tri, a: Tri, b: Tri, ta: Tri, tb: Tri)
    requires c != MOD && ta != MOD && tb != MOD
    ensures var t := Apply(if c == YES then op else Dual(op), ta, tb);
      && t != MOD
      && (ta >= Truth(a == c) && tb >= Truth(b == c) ==> t >= Truth(Apply(op, a, b) == c))
      && (ta == Truth(a == c) && tb == Truth(b == c) ==> t == Truth(Apply(op, a, b) == c))
  {}

  /** On normal trees the test for equality never claims less than the truth and
      the test for inequality never claims more; both are exact unless a
      negated symbol is m. */
  lemma {:induction false} TransCompareBounds(e: Expr, equal: bool, c: Sym, v: Valuation)
    requires c == SymYes || c == SymNo
    requires Consistent(v) && IsNormal(e) && IsLogicalExpr(e)
    ensures Eval(TransCompare(e, equal, c), v) != MOD
    ensures equal ==> Eval(TransCompare(e, equal, c), v) >= Truth(Eval(e, v) == v.tri(c))
    ensures !equal ==> Eval(TransCompare(e, equal, c), v) <= Truth(Eval(e, v) != v.tri(c))
    ensures !NegatesMod(e, v) ==>
      Eval(TransCompare(e, equal, c), v) == Truth((Eval(e, v) == v.tri(c)) == equal)
  {
    match e
    case Bin(op, l, r) =>
      var l', r' := TransCompare(l, true, c), TransCompare(r, true, c);
      TransCompareBounds(l, true, c, v);
      TransCompareBounds(r, true, c, v);
      TestsCombine(op, v.tri(c), Eval(l, v), Eval(r, v), Eval(l', v), Eval(r', v));
      assert Eval(Bin(if c == SymYes then op else Dual(op), l', r'), v)
          == Apply(if c == SymYes then op else Dual(op), Eval(l', v), Eval(r', v));
    case Not(_) =>
    case Symbol(_) =>
    case Comp(_, _, _) =>
  }

  /** For a single negated symbol the test is exact only if it is not m. */
  lemma TransCompareExactOnLiteral(s: Sym, equal: bool, c: Sym, v: Valuation)
    requires c == SymYes || c == SymNo
    requires Consistent(v) && s.Named? && s.IsLogical()
    ensures Eval(TransCompare(Not(Symbol(s)), equal, c), v)
         == Truth((Eval(Not(Symbol(s)), v) == v.tri(c)) == equal)
       <==> v.tri(s) != MOD
  {}
}
