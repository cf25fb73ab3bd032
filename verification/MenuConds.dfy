/** How menu_finalize rewrites conditions. */
module MenuConds {
  import opened Options
  import opened Exprs
  import opened ExprSimplify
  import opened ExprEq
  import opened ExprJoin
  import opened ExprDups

  // ---------- propagation ----------

  /** rewrite_m; ms is modules_sym. */
  function RewriteM(e: Expr, ms: Sym): Expr {
    match e
    case Not(a) => Not(RewriteM(a, ms))
    case Bin(op, l, r) => Bin(op, RewriteM(l, ms), RewriteM(r, ms))
    case Symbol(s) => if s.SymMod? then And(e, Symbol(ms)) else e
    case Comp(_, _, _) => e
  }

  function ReadTri(v: Valuation, ms: Sym, s: Sym): Tri {
    if s == SymMod then Min(MOD, v.tri(ms)) else v.tri(s)
  }

  // The constant m, read as n while modules are off.
  function ReadM(v: Valuation, ms: Sym): Valuation {
    Valuation((s: Sym) => ReadTri(v, ms, s), v.cmp)
  }

  lemma {:induction false} RewriteMMeans(e: Expr, ms: Sym, v: Valuation)
    requires v.tri(SymMod) == MOD
    ensures Eval(RewriteM(e, ms), v) == Eval(e, ReadM(v, ms))
  {
    match e
    case Not(a) => RewriteMMeans(a, ms, v);
    case Bin(_, l, r) => RewriteMMeans(l, ms, v); RewriteMMeans(r, ms, v);
    case Symbol(s) => if s.SymMod? { assert Eval(And(e, Symbol(ms)), v) == Min(MOD, v.tri(ms)); }
    case Comp(_, _, _) =>
  }

  lemma {:induction false} RewriteMKeepsTests(e: Expr, ms: Sym, p: Parser)
    requires SafeTests(e, p)
    ensures SafeTests(RewriteM(e, ms), p)
    ensures IsLogicalExpr(e) && (ms.IsLogical() || ms.IsTriConst()) ==> IsLogicalExpr(RewriteM(e, ms))
  {
    match e
    case Not(a) => RewriteMKeepsTests(a, ms, p);
    case Bin(_, l, r) => RewriteMKeepsTests(l, ms, p); RewriteMKeepsTests(r, ms, p);
    case Symbol(_) =>
    case Comp(_, _, _) =>
  }

  lemma {:induction false} TransformTidies(e: Expr, p: Parser)
    requires SafeTests(e, p)
    ensures IsTidy(Transform(e), Form(true, IsLogicalExpr(e), p))
    decreases Weight(e)
  {
    TransformIsNormal(e);
    match e
    case Symbol(_) =>
    case Comp(_, _, _) =>
    case Bin(_, l, r) => TransformTidies(l, p); TransformTidies(r, p);
    case Not(a) =>
      TransformTidies(a, p);
      match Transform(a)
      case Not(c) => TransformTidies(c, p);
      case Bin(op, l, r) =>
        assert IsLogicalExpr(a) ==> IsLogicalExpr(Not(l)) && IsLogicalExpr(Not(r));
        TransformTidies(DeMorgan(op, l, r), p);
      case Comp(_, _, _) =>
      case Symbol(_) =>
  }

  predicate SafeTestsPtr(e: ExprPtr, p: Parser) { e.Some? ==> SafeTests(e.value, p) }

  predicate IsLogicalPtr(e: ExprPtr) { e.Some? ==> IsLogicalExpr(e.value) }

  predicate IsTidyPtr(e: ExprPtr, p: Parser) { e.Some? ==> IsTidy(e.value, Form(true, false, p)) }

  function Simplified(cond: ExprPtr, ms: Sym): ExprPtr {
    if cond.None? then None else Some(Transform(RewriteM(cond.value, ms)))
  }

  /** The condition of a child: that of its parent and its own, simplified. */
  function PropagateCond(base: ExprPtr, cond: ExprPtr, ms: Sym): ExprPtr {
    EliminateDupsPtr(AllocAnd(base, Simplified(cond, ms)))
  }

  // modules_sym is bool, tristate or n.
  predicate LogicalParts(base: ExprPtr, cond: ExprPtr, ms: Sym) {
    IsLogicalPtr(base) && IsLogicalPtr(cond) && (ms.IsLogical() || ms.IsTriConst())
  }

  /** A propagated condition is exactly the conjunction of both. */
  lemma PropagatedCondMeans(base: ExprPtr, cond: ExprPtr, ms: Sym, v: Valuation, p: Parser)
    requires IsTidyPtr(base, p) && SafeTestsPtr(cond, p) && Consistent(v) && Reads(v, p)
    ensures EvalPtr(PropagateCond(base, cond, ms), v)
         == Min(EvalPtr(base, v), EvalPtr(cond, ReadM(v, ms)))
    ensures IsTidyPtr(PropagateCond(base, cond, ms), p)
    ensures LogicalParts(base, cond, ms) ==> IsLogicalPtr(PropagateCond(base, cond, ms))
  {
    var s := Simplified(cond, ms);
    if cond.Some? {
      RewriteMMeans(cond.value, ms, v);
      RewriteMKeepsTests(cond.value, ms, p);
      TransformKeepsValue(RewriteM(cond.value, ms), v);
      TransformTidies(RewriteM(cond.value, ms), p);
    }
    AllocAndMeans(base, s, v);
    var both := AllocAnd(base, s);
    if both.Some? {
      EliminateDupsKeepsValue(both.value, v, Form(true, LogicalParts(base, cond, ms), p));
    }
  }

  /** The condition of a property of a menu entry. */
  function PropagateProp(base: ExprPtr, cond: ExprPtr, ms: Sym, relax: bool): ExprPtr {
    var p := PropagateCond(base, cond, ms);
    if relax && p.Some? then Some(TransBool(p.value)) else p
  }

  /** Relaxed or not, its promoted value is that of the conjunction, and it is
      n exactly when the conjunction is. */
  lemma PropagatedPropMeans(base: ExprPtr, cond: ExprPtr, ms: Sym, relax: bool, v: Valuation, p: Parser)
    requires IsTidyPtr(base, p) && SafeTestsPtr(cond, p) && Consistent(v) && Reads(v, p)
    ensures var t := EvalPtr(PropagateProp(base, cond, ms, relax), v);
      var u := Min(EvalPtr(base, v), EvalPtr(cond, ReadM(v, ms)));
      && (relax ==> Promote(t) == Promote(u) && t <= u)
      && (!relax ==> t == u)
    ensures IsTidyPtr(PropagateProp(base, cond, ms, relax), p)
    ensures LogicalParts(base, cond, ms) ==> IsLogicalPtr(PropagateProp(base, cond, ms, relax))
  {
    PropagatedCondMeans(base, cond, ms, v, p);
    var c := PropagateCond(base, cond, ms);
    if c.Some? {
      TransBoolKeepsPromotedValue(c.value, v);
      TransBoolKeepsTidy(c.value, Form(true, LogicalParts(base, cond, ms), p));
    }
  }

  lemma {:induction false} TransBoolKeepsTidy(e: Expr, form: Form)
    requires IsTidy(e, form)
    ensures IsTidy(TransBool(e), form)
  {
    match e
    case Bin(_, l, r) => TransBoolKeepsTidy(l, form); TransBoolKeepsTidy(r, form);
    case Not(a) => TransBoolKeepsTidy(a, form);
    case Symbol(_) =>
    case Comp(_, _, _) =>
  }

  // ---------- where propagation fails ----------

  /** A node with the dependency A != "2" and a prompt with the condition A = y:
      the prompt gets the condition A = y alone. Where A is y it is visible,
      although the dependency is n. */
  lemma QuotedDependencyIsLost(ms: Sym)
    ensures var a := Named("A", Tristate, false);
      var dep, cond := Comp(NE, a, Named("2", Unknown, true)), Comp(EQ, a, SymYes);
      && PropagateProp(Some(dep), Some(cond), ms, false) == Some(cond)
      && Consistent(OneSymbol(a, YES))
      && Eval(cond, OneSymbol(a, YES)) == YES && Eval(dep, OneSymbol(a, YES)) == NO
  {
    var a := Named("A", Tristate, false);
    var dep, cond := Comp(NE, a, Named("2", Unknown, true)), Comp(EQ, a, SymYes);
    QuotedNumberIsJoinedWrongly();
    assert Eval(And(cond, dep), OneSymbol(a, YES)) == Min(Eval(cond, OneSymbol(a, YES)), Eval(dep, OneSymbol(a, YES)));
    assert JoinAnd(dep, cond) == Some(cond) && JoinAnd(cond, YES_EXPR) == None;
    OneJoin(AndOp, dep, cond, cond);
    hide Dups1, JoinAnd, Consistent, Eval, OneSymbol;
    assert EliminateYn(And(YES_EXPR, cond)) == cond;
    assert EliminateDups(cond) == cond;
    assert EliminateDups(And(dep, cond)) == cond;
    assert Simplified(Some(cond), ms) == Some(cond);
  }
}
