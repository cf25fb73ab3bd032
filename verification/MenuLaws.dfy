/** What menu_finalize makes of each condition, and which entries it moves. */
module MenuLaws {
  import opened Options
  import opened Exprs
  import opened ExprSimplify
  import opened ExprEq
  import opened ExprJoin
  import opened ExprDups
  import opened ExprLaws
  import opened MenuConds
  import opened Submenus
  import opened MenuLinks
  import opened Menus
  import opened MenuSymbols
  import opened Kconfig

  // ---------- conditions ----------

  /** The condition of the parent comes first. */
  lemma ParentComesFirst(a: Sym, b: Sym, ms: Sym)
    requires a.Named? && b.Named? && a != b
    ensures PropagateCond(Some(Symbol(a)), Some(Symbol(b)), ms) == Some(And(Symbol(a), Symbol(b)))
    ensures PropagateCond(None, Some(Symbol(b)), ms) == Some(Symbol(b))
    ensures PropagateCond(Some(Symbol(a)), None, ms) == Some(Symbol(a))
    ensures PropagateCond(None, None, ms) == None
  {
    NothingToJoin(AndOp, Symbol(a), Symbol(b));
    hide Dups1;
    assert EliminateDups(Symbol(a)) == Symbol(a) && EliminateDups(Symbol(b)) == Symbol(b);
  }

  // p is a property of the entry at x: of its symbol, declared there, or the
  // prompt of a menu or comment.
  predicate BelongsTo(e: Entries, x: Id, p: PropId) {
    && p in e.props && e.props[p].menu == x
    && (if x in e.sym then e.sym[x] in e.symProps && p in e.symProps[e.sym[x]]
        else x in e.prompt && e.prompt[x] == p)
  }

  lemma {:induction false} ChildIsSettled(e: Entries, c0: Conds, c: Conds, ts: seq<Tree>, x: Id, base: Id)
    requires InnerSettled(RulesOf(e), e, c0, c, ts) && IsChild(ts, x, base)
    ensures NodeSettled(RulesOf(e), e, c0, c, x, base)
  {
    var t := ts[0];
    if IsChild(t.kids, x, base) {
      ChildIsSettled(e, c0, c, t.kids, x, base);
    } else if IsChild(ts[1..], x, base) {
      ChildIsSettled(e, c0, c, ts[1..], x, base);
    }
  }

  // The condition `own` of a property, put together with that of its node.
  predicate IsGuarded(cond: ExprPtr, own: ExprPtr, ms: Sym, tristate: bool, r: ExprPtr) {
    var both := PropagateCond(cond, own, ms);
    if tristate then r == both
    else r == (if both.None? then None else Some(TransBool(both.value)))
  }

  /** Below the root of a finalized tree each node has the condition of its
      parent and its own, and each of its properties that of the node and its own;
      for symbols that are not tristate no test `!= n` of a tristate is left. */
  lemma SettledExactly(e: Entries, c0: Conds, c: Conds, ts: seq<Tree>, x: Id, base: Id, p: PropId)
    requires InnerSettled(RulesOf(e), e, c0, c, ts) && IsChild(ts, x, base)
    ensures c.Dep(x) == PropagateCond(c.Dep(base), c0.Dep(x), e.modulesSym)
    ensures BelongsTo(e, x, p) ==>
      var keeps := x !in e.sym || e.sym[x].Type() == Tristate;
      && IsGuarded(c.Dep(x), c0.Visible(p), e.modulesSym, keeps, c.Visible(p))
      && (!keeps && c.Visible(p).Some? ==> forall y :: IsPart(y, c.Visible(p).value) ==> !IsTestForN(y))
  {
    var r := RulesOf(e);
    ChildIsSettled(e, c0, c, ts, x, base);
    assert IsCond(e, c.Dep(base), c0.Dep(x), r.cond(c.Dep(base), c0.Dep(x)));
    if BelongsTo(e, x, p) {
      assert e.Owns(x, p) && PropSettled(r, e, c0, c, x, p);
      assert IsProp(e, c.Dep(x), c0.Visible(p), e.Relaxes(x), r.prop(c.Dep(x), c0.Visible(p), e.Relaxes(x)));
      hide PropagateCond, TransBool, IsPart, IsTestForN;
      var both := PropagateCond(c.Dep(x), c0.Visible(p), e.modulesSym);
      if both.Some? {
        TransBoolRemoves(both.value);
      }
    }
  }

  // ---------- entries below symbols ----------

  // x is e or an operand of && in it.
  predicate IsConjunct(x: Expr, e: Expr) {
    x == e || (e.Bin? && e.op == AndOp && (IsConjunct(x, e.left) || IsConjunct(x, e.right)))
  }

  // Four ways to require s.
  predicate Requires(x: Expr, s: Sym) {
    x in {Symbol(s), Comp(EQ, s, SymYes), Comp(EQ, s, SymMod), Comp(NE, s, SymNo)}
  }

  lemma {:induction false} ContainsIsMentions(e: Expr, s: Sym)
    ensures ContainsSymbol(e, s) <==> s in Syms(e)
  {
    match e
    case Not(a) => ContainsIsMentions(a, s);
    case Bin(_, l, r) => ContainsIsMentions(l, s); ContainsIsMentions(r, s);
    case Symbol(_) =>
    case Comp(_, _, _) =>
  }

  lemma {:induction false} DependsIsConjunct(e: Expr, s: Sym)
    ensures DependsSymbol(e, s) <==> exists x :: IsConjunct(x, e) && Requires(x, s)
  {
    assert IsConjunct(e, e);
    if e.Bin? && e.op == AndOp {
      DependsIsConjunct(e.left, s);
      DependsIsConjunct(e.right, s);
      assert forall x :: IsConjunct(x, e) <==> x == e || IsConjunct(x, e.left) || IsConjunct(x, e.right);
    } else {
      assert forall x :: IsConjunct(x, e) <==> x == e;
      assert DependsSymbol(e, s) <==> Requires(e, s);
    }
  }

  // The condition that decides whether the entry at x is moved below a symbol.
  function DecidingCond(e: Entries, c: Conds, x: Id): ExprPtr {
    if x !in e.prompt then (if x in c.dep then Some(c.dep[x]) else None)
    else if e.prompt[x] in c.visible then Some(c.visible[e.prompt[x]]) else None
  }

  /** An entry passes the test of the symbol at p exactly if its condition
      mentions the symbol, and has a conjunct that requires it or is superset of
      the condition of the symbol's prompt. */
  lemma JoinsExactly(e: Entries, c: Conds, p: Id, x: Id)
    requires p in e.sym
    ensures var s, dep := e.sym[p], DecidingCond(e, c, x);
      var base := if p in e.prompt then DecidingCond(e, c, p) else None;
      Joins(RulesOf(e), e, c, p, x) <==>
        && dep.Some? && Mentions(dep.value, s)
        && ((exists y :: IsConjunct(y, dep.value) && Requires(y, s))
            || EliminateEq(NotNoTest(dep), NotNoTest(base)).1 == Symbol(SymYes))
  {
    var s, dep := e.sym[p], DecidingCond(e, c, x);
    var r, base := RulesOf(e), PromptCond(e, c, p);
    assert IsTest(s, base, dep, r.joins(s, base, dep));
    if dep.Some? {
      hide Mentions, IsConjunct, Requires, EliminateEq, NotNoTest;
      SymsAreMentioned(dep.value, s);
      ContainsIsMentions(dep.value, s);
      DependsIsConjunct(dep.value, s);
    }
  }

  // ---------- recursive dependencies ----------

  ghost predicate MentionsPtr(e: ExprPtr, s: Sym) { e.Some? && Mentions(e.value, s) }

  // The property p makes its symbol depend on t.
  ghost predicate Uses(p: Property, t: Sym) {
    && p.kind !in {PChoice, PSelect, PImply}
    && (MentionsPtr(p.visible, t) || (p.kind == PDefault && MentionsPtr(p.expr, t)))
  }

  lemma MentionedPtr(e: ExprPtr, s: Sym)
    ensures s in SymsPtr(e) <==> MentionsPtr(e, s)
  {
    if e.Some? {
      SymsAreMentioned(e.value, s);
    }
  }

  lemma {:induction false} PropsUse(props: seq<Property>, t: Sym)
    ensures t in PropsSyms(props) <==> exists i :: 0 <= i < |props| && Uses(props[i], t)
  {
    if props != [] {
      hide MentionsPtr, SymsPtr;
      MentionedPtr(props[0].visible, t);
      MentionedPtr(props[0].expr, t);
      PropsUse(props[1..], t);
      assert forall i :: 0 < i < |props| ==> props[i] == props[1..][i - 1];
    }
  }

  /** What a symbol depends on: what its direct, reverse and implied dependencies
      mention, the conditions of its properties, and the values of its defaults;
      choices, selects and implies of other symbols do not count. */
  lemma EdgesExactly(cfg: Config, s: Sym, t: Sym)
    ensures t in Edges(cfg, s) <==>
      s in cfg && var d := cfg[s];
      MentionsPtr(d.dirDep, t) || MentionsPtr(d.revDep, t) || MentionsPtr(d.implied, t)
      || exists i :: 0 <= i < |d.props| && Uses(d.props[i], t)
  {
    hide MentionsPtr, SymsPtr, Uses;
    var d := DeclOf(cfg, s);
    MentionedPtr(d.dirDep, t);
    MentionedPtr(d.revDep, t);
    MentionedPtr(d.implied, t);
    PropsUse(d.props, t);
    MentionedPtr(None, t);
    NoneMentions(t);
  }

  lemma NoneMentions(t: Sym)
    ensures !MentionsPtr(None, t)
  {}
}
