/** From finalized menus to symbol values: dependencies are hard. */
module MenuSymbols {
  import opened Options
  import opened Exprs
  import opened ExprSimplify
  import opened Graphs
  import opened Kconfig
  import opened ExprJoin
  import opened MenuConds
  import opened MenuLinks
  import opened Menus
  import opened MenuFinalize
  import opened SymbolValues

  // No test of node x or of its properties compares a tristate symbol with a
  // quoted constant that a tristate is spelled by; y, m and n aside.
  ghost predicate SafeAt(e: Entries, c: Conds, x: Id, parse: Parser) {
    SafeTestsPtr(c.Dep(x), parse) && forall p :: e.Owns(x, p) ==> SafeTestsPtr(c.Visible(p), parse)
  }

  /** The condition of x is that of its parent and its own, with m read as n
      while modules are off, and no property of x is visible without it. */
  ghost predicate Guards(e: Entries, c0: Conds, c: Conds, x: Id, base: Id, v: Valuation) {
    && EvalPtr(c.Dep(x), v) == Min(EvalPtr(c.Dep(base), v), EvalPtr(c0.Dep(x), ReadM(v, e.modulesSym)))
    && forall p :: e.Owns(x, p) ==>
         (EvalPtr(c.Visible(p), v) == NO <==>
            EvalPtr(c.Dep(x), v) == NO || EvalPtr(c0.Visible(p), ReadM(v, e.modulesSym)) == NO)
  }

  lemma SettledCond(e: Entries, c0: Conds, c: Conds, x: Id, base: Id, v: Valuation, parse: Parser)
    requires SafeTestsPtr(c0.Dep(x), parse) && Consistent(v) && Reads(v, parse)
    requires NodeSettled(RulesOf(e), e, c0, c, x, base) && IsTidyPtr(c.Dep(base), parse)
    ensures IsTidyPtr(c.Dep(x), parse)
    ensures EvalPtr(c.Dep(x), v) == Min(EvalPtr(c.Dep(base), v), EvalPtr(c0.Dep(x), ReadM(v, e.modulesSym)))
  {
    var r := RulesOf(e);
    assert IsCond(e, c.Dep(base), c0.Dep(x), r.cond(c.Dep(base), c0.Dep(x)));
    PropagatedCondMeans(c.Dep(base), c0.Dep(x), e.modulesSym, v, parse);
  }

  lemma SettledGuards(e: Entries, c0: Conds, c: Conds, x: Id, base: Id, v: Valuation, parse: Parser)
    requires SafeAt(e, c0, x, parse) && Consistent(v) && Reads(v, parse)
    requires NodeSettled(RulesOf(e), e, c0, c, x, base) && IsTidyPtr(c.Dep(base), parse)
    ensures Guards(e, c0, c, x, base, v)
  {
    var r := RulesOf(e);
    SettledCond(e, c0, c, x, base, v, parse);
    forall p | e.Owns(x, p)
      ensures EvalPtr(c.Visible(p), v) == NO <==>
        EvalPtr(c.Dep(x), v) == NO || EvalPtr(c0.Visible(p), ReadM(v, e.modulesSym)) == NO
    {
      assert PropSettled(r, e, c0, c, x, p);
      assert IsProp(e, c.Dep(x), c0.Visible(p), e.Relaxes(x), r.prop(c.Dep(x), c0.Visible(p), e.Relaxes(x)));
      PropagatedPropMeans(c.Dep(x), c0.Visible(p), e.modulesSym, e.Relaxes(x), v, parse);
    }
  }

  // Node y is an ancestor of x in one of the trees.
  ghost predicate IsAbove(ts: seq<Tree>, y: Id, x: Id) {
    ts != [] &&
    ((ts[0].id == y && x in Nodes(ts[0].kids)) || IsAbove(ts[0].kids, y, x) || IsAbove(ts[1..], y, x))
  }

  // The same for the dependencies of the ancestors of x.
  ghost predicate SafeAbove(c: Conds, ts: seq<Tree>, x: Id, parse: Parser) {
    forall y :: IsAbove(ts, y, x) ==> SafeTestsPtr(c.Dep(y), parse)
  }

  lemma {:induction false} TopIsAbove(ts: seq<Tree>, i: nat, x: Id)
    requires i < |ts| && x in Nodes(ts[i].kids)
    ensures IsAbove(ts, ts[i].id, x) && x in Nodes(ts)
  {
    if i > 0 {
      TopIsAbove(ts[1..], i - 1, x);
    }
  }

  // The tops above x have rewritten dependencies.
  ghost predicate TopsTidy(c: Conds, ts: seq<Tree>, x: Id, parse: Parser) {
    forall i :: 0 <= i < |ts| && x in Nodes(ts[i].kids) ==> IsTidyPtr(c.Dep(ts[i].id), parse)
  }

  lemma {:induction false} ChildIsIn(ts: seq<Tree>, x: Id, base: Id)
    requires IsChild(ts, x, base)
    ensures x in Nodes(ts)
  {
    var kids := ts[0].kids;
    if IsChild(kids, x, base) {
      ChildIsIn(kids, x, base);
    } else if IsChild(ts[1..], x, base) {
      ChildIsIn(ts[1..], x, base);
    } else {
      var i :| 0 <= i < |kids| && kids[i].id == x;
      TopIsIn(kids, i);
    }
  }

  /** In a finalized menu tree this holds for every node: only the conditions of
      x and of its ancestors matter. */
  lemma {:induction false} FinalizedGuards(e: Entries, c0: Conds, c: Conds, ts: seq<Tree>, x: Id, base: Id,
                                           v: Valuation, parse: Parser)
    requires Consistent(v) && Reads(v, parse) && InnerSettled(RulesOf(e), e, c0, c, ts) && IsChild(ts, x, base)
    requires SafeAt(e, c0, x, parse) && SafeAbove(c0, ts, x, parse) && TopsTidy(c, ts, x, parse)
    ensures Guards(e, c0, c, x, base, v)
  {
    var t := ts[0];
    if IsChild(t.kids, x, base) {
      ChildIsIn(t.kids, x, base);
      forall i | 0 <= i < |t.kids| && x in Nodes(t.kids[i].kids) ensures IsTidyPtr(c.Dep(t.kids[i].id), parse) {
        TopIsAbove(t.kids, i, x);
        assert NodeSettled(RulesOf(e), e, c0, c, t.kids[i].id, t.id);
        SettledCond(e, c0, c, t.kids[i].id, t.id, v, parse);
      }
      FinalizedGuards(e, c0, c, t.kids, x, base, v, parse);
    } else if IsChild(ts[1..], x, base) {
      FinalizedGuards(e, c0, c, ts[1..], x, base, v, parse);
    } else {
      var i :| 0 <= i < |t.kids| && t.kids[i].id == x;
      TopIsIn(t.kids, i);
      assert NodeSettled(RulesOf(e), e, c0, c, x, t.id);
      SettledGuards(e, c0, c, x, t.id, v, parse);
    }
  }

  // ---------- the direct dependency of a symbol ----------

  predicate Defines(e: Entries, s: Sym, x: Id) { x in e.sym && e.sym[x] == s }

  // Node x is an entered definition of s with a condition.
  predicate Counts(e: Entries, c: Conds, defs: seq<Id>, s: Sym, x: Id) {
    x in defs && Defines(e, s, x) && c.Dep(x).Some?
  }

  /** The direct dependency is the disjunction over the definitions that have a
      condition; a definition without one does not count beside them. */
  lemma {:induction false} DirDepMeans(e: Entries, c: Conds, defs: seq<Id>, s: Sym, v: Valuation)
    ensures var d := DirDepOf(e, c, defs, s);
      && (d.Some? <==> exists x :: Counts(e, c, defs, s, x))
      && (forall x :: Counts(e, c, defs, s, x) ==> EvalPtr(c.Dep(x), v) <= EvalPtr(d, v))
      && (d.Some? ==> exists x :: Counts(e, c, defs, s, x) && EvalPtr(c.Dep(x), v) == EvalPtr(d, v))
  {
    if defs != [] {
      var n := |defs| - 1;
      var last := defs[n];
      assert defs == defs[..n] + [last];
      DirDepMeans(e, c, defs[..n], s, v);
      var before, d := DirDepOf(e, c, defs[..n], s), DirDepOf(e, c, defs, s);
      forall x
        ensures Counts(e, c, defs, s, x) <==>
          Counts(e, c, defs[..n], s, x) || (x == last && Counts(e, c, [last], s, x))
      {}
      if before.Some? {
        var x :| Counts(e, c, defs[..n], s, x) && EvalPtr(c.Dep(x), v) == EvalPtr(before, v);
        assert Counts(e, c, defs, s, x);
        if Counts(e, c, [last], s, last) {
          assert EvalPtr(d, v) == Max(EvalPtr(before, v), EvalPtr(c.Dep(last), v));
          assert Counts(e, c, defs, s, last);
        }
      } else if Counts(e, c, [last], s, last) {
        assert Counts(e, c, defs, s, last) && d == c.Dep(last);
      }
    }
  }

  // ---------- the reverse dependencies of a symbol ----------

  // Property p of node x selects (or implies) s.
  predicate Selects(e: Entries, kind: PropKind, s: Sym, x: Id, p: PropId) {
    x in e.sym && e.Owns(x, p) && e.props[p].kind == kind && e.props[p].target == s
  }

  // How high it holds s up: the selecting symbol, under the condition of p.
  function Force(e: Entries, c: Conds, v: Valuation, x: Id, p: PropId): Tri
    requires x in e.sym
  {
    Min(v.tri(e.sym[x]), EvalPtr(c.Visible(p), v))
  }

  // t is the highest force on s in the given nodes and properties.
  ghost predicate IsForce(e: Entries, c: Conds, kind: PropKind, s: Sym, v: Valuation,
                          at: set<(Id, PropId)>, t: Tri) {
    && (forall x, p :: (x, p) in at && Selects(e, kind, s, x, p) ==> Force(e, c, v, x, p) <= t)
    && (t == NO || exists x, p :: (x, p) in at && Selects(e, kind, s, x, p) && Force(e, c, v, x, p) == t)
  }

  function PropsAt(e: Entries, xs: seq<Id>): set<(Id, PropId)> {
    set x, p | x in xs && p in e.PropsOf(x) :: (x, p)
  }

  lemma AddReverseMeans(m: map<Sym, Expr>, target: Sym, source: Sym, cond: ExprPtr, s: Sym, v: Valuation)
    ensures EvalReverse(Lookup(AddReverse(m, target, source, cond), s), v)
         == if s == target then Max(EvalReverse(Lookup(m, s), v), Min(v.tri(source), EvalPtr(cond, v)))
            else EvalReverse(Lookup(m, s), v)
  {
    AllocAndMeans(Some(Symbol(source)), cond, v);
    var x := AllocAnd(Some(Symbol(source)), cond);
    if s == target && s in m {
      assert Eval(Or(m[s], x.value), v) == Max(Eval(m[s], v), Eval(x.value, v));
    }
  }

  lemma ForceStep(e: Entries, c: Conds, m: map<Sym, Expr>, x: Id, p: PropId, kind: PropKind, s: Sym,
                  v: Valuation, at: set<(Id, PropId)>)
    requires IsForce(e, c, kind, s, v, at, EvalReverse(Lookup(m, s), v))
    ensures IsForce(e, c, kind, s, v, at + {(x, p)},
                    EvalReverse(Lookup(ReverseStep(e, m, x, p, c.Visible(p), kind), s), v))
  {
    var t, t' := EvalReverse(Lookup(m, s), v), EvalReverse(Lookup(ReverseStep(e, m, x, p, c.Visible(p), kind), s), v);
    if Selects(e, kind, s, x, p) {
      AddReverseMeans(m, s, e.sym[x], c.Visible(p), s, v);
      assert t' == Max(t, Force(e, c, v, x, p)) && (x, p) in at + {(x, p)};
    } else {
      if x in e.sym && e.Owns(x, p) && e.props[p].kind == kind {
        AddReverseMeans(m, e.props[p].target, e.sym[x], c.Visible(p), s, v);
      }
      assert t' == t;
    }
    if t' != NO && t' == t {
      var y, q :| (y, q) in at && Selects(e, kind, s, y, q) && Force(e, c, v, y, q) == t;
      assert (y, q) in at + {(x, p)};
    }
  }

  lemma {:induction false} ForceOfProps(e: Entries, c: Conds, m: map<Sym, Expr>, x: Id, ps: seq<PropId>,
                                        kind: PropKind, s: Sym, v: Valuation, at: set<(Id, PropId)>)
    requires IsForce(e, c, kind, s, v, at, EvalReverse(Lookup(m, s), v))
    ensures IsForce(e, c, kind, s, v, at + (set p | p in ps :: (x, p)),
                    EvalReverse(Lookup(Reversed(e, c, m, x, ps, kind), s), v))
  {
    hide IsForce;
    if ps == [] {
      assert at + (set p | p in ps :: (x, p)) == at;
    } else {
      var n := |ps| - 1;
      var before := set p | p in ps[..n] :: (x, p);
      ForceOfProps(e, c, m, x, ps[..n], kind, s, v, at);
      ForceStep(e, c, Reversed(e, c, m, x, ps[..n], kind), x, ps[n], kind, s, v, at + before);
      assert ps == ps[..n] + [ps[n]];
      assert at + (set p | p in ps :: (x, p)) == at + before + {(x, ps[n])};
    }
  }

  /** The reverse dependency of s is the disjunction over all selects of s in the
      nodes that were settled, each with its condition; the same for implies. */
  lemma {:induction false} ReverseDepMeans(e: Entries, c: Conds, order: seq<Id>, kind: PropKind, s: Sym, v: Valuation)
    ensures IsForce(e, c, kind, s, v, PropsAt(e, order), EvalReverse(Lookup(ReversedBy(e, c, order, kind), s), v))
  {
    if order != [] {
      var n := |order| - 1;
      var x := order[n];
      ReverseDepMeans(e, c, order[..n], kind, s, v);
      ForceOfProps(e, c, ReversedBy(e, c, order[..n], kind), x, e.PropsOf(x), kind, s, v, PropsAt(e, order[..n]));
      assert order == order[..n] + [x];
      assert PropsAt(e, order) == PropsAt(e, order[..n]) + (set p | p in e.PropsOf(x) :: (x, p));
    }
  }

  // ---------- the declaration ----------

  // p is the property of s that q stands for.
  ghost predicate IsSource(e: Entries, c: Conds, s: Sym, q: Property, p: PropId) {
    && s in e.symProps && p in e.symProps[s] && p in e.props
    && q.kind == e.props[p].kind && q.visible == c.Visible(p)
  }

  /** The declaration the evaluator sees, after menu_finalize. */
  ghost predicate IsFinalDecl(e: Entries, c: Conds, dirDep: map<Sym, Expr>, s: Sym, d: Decl) {
    && d.dirDep == Lookup(dirDep, s)
    && (forall i :: 0 <= i < |d.props| ==> exists p :: IsSource(e, c, s, d.props[i], p))
  }

  // Every prompt and default of s belongs to a definition of s.
  ghost predicate PropsAtDefinitions(e: Entries, s: Sym) {
    s in e.symProps ==>
      forall p :: p in e.symProps[s] && p in e.props && (e.props[p].kind in {PPrompt, PComment, PMenu, PDefault}) ==>
        Defines(e, s, e.props[p].menu)
  }

  // Either all definitions of s have a condition or none has.
  ghost predicate Uniform(e: Entries, c: Conds, s: Sym) {
    forall x, y :: Defines(e, s, x) && Defines(e, s, y) ==> c.Dep(x).Some? == c.Dep(y).Some?
  }

  /** Symbol s is defined below the root of a finalized tree; d is its declaration. */
  ghost predicate FinalizedSym(e: Entries, c0: Conds, c: Conds, dirDep: map<Sym, Expr>, defs: seq<Id>,
                               root: Tree, s: Sym, d: Decl, parse: Parser) {
    && InnerSettled(RulesOf(e), e, c0, c, [root]) && IsTidyPtr(c.Dep(root.id), parse)
    && Lookup(dirDep, s) == DirDepOf(e, c, defs, s)
    && IsFinalDecl(e, c, dirDep, s, d) && PropsAtDefinitions(e, s)
    && (forall x :: Defines(e, s, x) ==>
          x in defs && SafeAt(e, c0, x, parse) && SafeAbove(c0, [root], x, parse) && exists base :: IsChild([root], x, base))
  }

  lemma {:induction false} InnerHasParent(ts: seq<Tree>, x: Id)
    requires x in Inner(ts)
    ensures exists base :: IsChild(ts, x, base)
  {
    var kids := ts[0].kids;
    TopsAndInner(kids);
    if x in Tops(kids) {
      assert IsChild(ts, x, ts[0].id);
    } else {
      var rest := if x in Inner(kids) then kids else ts[1..];
      InnerHasParent(rest, x);
      var base :| IsChild(rest, x, base);
      assert IsChild(ts, x, base);
    }
  }

  /** What menu_finalize on the root menu leaves behind is of this form, for
      every symbol defined below the root. */
  lemma AfterFinalizeRoot(tree: MenuTree, t: Tree, s: Sym, d: Decl, parse: Parser)
    requires tree.r == RulesOf(tree.e) && tree.Entered()
    requires InnerSettled(tree.r, tree.e, tree.parsed, tree.conds, [t]) && IsTidyPtr(tree.conds.Dep(t.id), parse)
    requires Elems(tree.defs) == Nodes([t]) * tree.e.sym.Keys
    requires forall x :: Defines(tree.e, s, x) ==>
      x in Inner([t]) && SafeAt(tree.e, tree.parsed, x, parse) && SafeAbove(tree.parsed, [t], x, parse)
    requires IsFinalDecl(tree.e, tree.conds, tree.dirDep, s, d) && PropsAtDefinitions(tree.e, s)
    ensures FinalizedSym(tree.e, tree.parsed, tree.conds, tree.dirDep, tree.defs, t, s, d, parse)
  {
    hide InnerSettled, SafeAbove, SafeAt, IsChild, RulesOf, IsFinalDecl, PropsAtDefinitions, Inner, Nodes;
    InnerIsInNodes([t]);
    forall x | Defines(tree.e, s, x) ensures x in tree.defs && exists base :: IsChild([t], x, base) {
      InnerHasParent([t], x);
      assert x in Elems(tree.defs);
    }
  }

  // The dependency of x, those of its parents included, is n.
  ghost predicate Unmet(e: Entries, c0: Conds, c: Conds, root: Tree, x: Id, v: Valuation) {
    exists base :: IsChild([root], x, base)
      && Min(EvalPtr(c.Dep(base), v), EvalPtr(c0.Dep(x), ReadM(v, e.modulesSym))) == NO
  }

  lemma DefinitionGuards(e: Entries, c0: Conds, c: Conds, dirDep: map<Sym, Expr>, defs: seq<Id>,
                         root: Tree, s: Sym, d: Decl, x: Id, v: Valuation, parse: Parser)
    requires FinalizedSym(e, c0, c, dirDep, defs, root, s, d, parse) && Consistent(v) && Reads(v, parse) && Defines(e, s, x)
    ensures EvalPtr(c.Dep(x), v) == NO <==> Unmet(e, c0, c, root, x, v)
    ensures EvalPtr(c.Dep(x), v) == NO ==> forall p :: e.Owns(x, p) ==> EvalPtr(c.Visible(p), v) == NO
  {
    hide InnerSettled, IsChild, Consistent, Reads, RulesOf, SafeAbove;
    assert TopsTidy(c, [root], x, parse);
    forall base | IsChild([root], x, base) ensures Guards(e, c0, c, x, base, v) {
      FinalizedGuards(e, c0, c, [root], x, base, v, parse);
    }
  }

  /** The direct dependency of s is n exactly if those of all its definitions
      with a condition are; it guards prompts and defaults if s is uniform. */
  lemma FinalizedDecl(e: Entries, c0: Conds, c: Conds, dirDep: map<Sym, Expr>, defs: seq<Id>,
                      root: Tree, s: Sym, d: Decl, v: Valuation, parse: Parser)
    requires FinalizedSym(e, c0, c, dirDep, defs, root, s, d, parse) && Consistent(v) && Reads(v, parse)
    ensures EvalPtr(d.dirDep, v) == NO
       <==> (exists x :: Counts(e, c, defs, s, x))
            && forall x :: Counts(e, c, defs, s, x) ==> Unmet(e, c0, c, root, x, v)
    ensures Uniform(e, c, s) ==> GuardedBy(d.props, d.dirDep, v)
  {
    hide InnerSettled, IsChild, Consistent, Reads, RulesOf, SafeAbove, Unmet, SafeAt;
    DirDepMeans(e, c, defs, s, v);
    forall x | Defines(e, s, x)
      ensures EvalPtr(c.Dep(x), v) == NO <==> Unmet(e, c0, c, root, x, v)
      ensures EvalPtr(c.Dep(x), v) == NO ==> forall p :: e.Owns(x, p) ==> EvalPtr(c.Visible(p), v) == NO
      ensures c.Dep(x).Some? <==> Counts(e, c, defs, s, x)
    {
      DefinitionGuards(e, c0, c, dirDep, defs, root, s, d, x, v, parse);
    }
    if d.dirDep.Some? {
      var x :| Counts(e, c, defs, s, x) && EvalPtr(c.Dep(x), v) == EvalPtr(d.dirDep, v);
      assert (forall y :: Counts(e, c, defs, s, y) ==> Unmet(e, c0, c, root, y, v)) ==> EvalPtr(d.dirDep, v) == NO;
    }
    if EvalPtr(d.dirDep, v) == NO && Uniform(e, c, s) {
      PropsAreGuarded(e, c, dirDep, s, d, v);
    }
  }

  lemma PropsAreGuarded(e: Entries, c: Conds, dirDep: map<Sym, Expr>, s: Sym, d: Decl, v: Valuation)
    requires IsFinalDecl(e, c, dirDep, s, d) && PropsAtDefinitions(e, s)
    requires forall x, p :: Defines(e, s, x) && e.Owns(x, p) ==> EvalPtr(c.Visible(p), v) == NO
    ensures GuardedBy(d.props, d.dirDep, v)
  {
    forall i | 0 <= i < |d.props| && (d.props[i].IsPrompt() || d.props[i].kind.PDefault?)
      ensures EvalPtr(d.props[i].visible, v) == NO
    {
      var p :| IsSource(e, c, s, d.props[i], p);
      assert e.Owns(e.props[p].menu, p);
    }
  }

  /** A symbol is invisible and evaluates to n whenever the dependencies of its
      definitions, with those of their parents, are n: whatever the user sets,
      and whatever its defaults, selects and implies say. */
  lemma DependenciesAreHardInMenus(e: Entries, c0: Conds, c: Conds, dirDep: map<Sym, Expr>, defs: seq<Id>,
                                   root: Tree, s: Sym, x: Id, sys: System, user: UserValues, v: Valuation)
    requires FinalizedSym(e, c0, c, dirDep, defs, root, s, DeclOf(sys.cfg, s), sys.parse)
    requires Consistent(v) && Reads(v, sys.parse)
    requires Defines(e, s, x) && forall y :: Defines(e, s, y) ==> Unmet(e, c0, c, root, y, v)
    ensures StatusOf(sys, user, v, s).curr == NO && StatusOf(sys, user, v, s).visible == NO
  {
    var d := DeclOf(sys.cfg, s);
    forall y | Defines(e, s, y) ensures EvalPtr(c.Dep(y), v) == NO {
      DefinitionGuards(e, c0, c, dirDep, defs, root, s, d, y, v, sys.parse);
    }
    assert Counts(e, c, defs, s, x) && Uniform(e, c, s);
    hide FinalizedSym, StatusOf, Consistent, Reads, GuardedBy, Unmet;
    FinalizedDecl(e, c0, c, dirDep, defs, root, s, d, v, sys.parse);
    DependenciesAreHard(sys, user, v, s);
  }

  /** A value that the range test accepts is what the symbol evaluates to next,
      if all its definitions have a condition or none has. */
  lemma ChangeSticksInMenus(e: Entries, c0: Conds, c: Conds, dirDep: map<Sym, Expr>, defs: seq<Id>,
                            root: Tree, s: Sym, sys: System, rank: map<Sym, nat>, user: UserValues,
                            f: Sym -> Tri, g: Sym -> Tri, val: Tri)
    requires FinalizedSym(e, c0, c, dirDep, defs, root, s, DeclOf(sys.cfg, s), sys.parse) && Uniform(e, c, s)
    requires Acyclic(sys, rank) && ParsesLetters(sys.parse) && s.IsLogical()
    requires Solves(sys, user, f) && Solves(sys, user[s := val], g)
    requires WithinRange(IsBool(sys, s), StatusOf(sys, user, Observe(sys, f), s), val)
    ensures g(s) == val
  {
    hide FinalizedSym, StatusOf, Consistent, Reads, GuardedBy, Acyclic, Solves, WithinRange, Uniform;
    SolutionIsConsistent(sys, user, f);
    FinalizedDecl(e, c0, c, dirDep, defs, root, s, DeclOf(sys.cfg, s), Observe(sys, f), sys.parse);
    GuardedChangeSticks(sys, rank, user, f, g, s, val);
  }

  /** For a symbol with one definition nothing more is needed. */
  lemma OneChangeSticks(e: Entries, c0: Conds, c: Conds, dirDep: map<Sym, Expr>, defs: seq<Id>,
                        root: Tree, s: Sym, x: Id, sys: System, rank: map<Sym, nat>, user: UserValues,
                        f: Sym -> Tri, g: Sym -> Tri, val: Tri)
    requires FinalizedSym(e, c0, c, dirDep, defs, root, s, DeclOf(sys.cfg, s), sys.parse)
    requires Defines(e, s, x) && forall y :: Defines(e, s, y) ==> y == x
    requires Acyclic(sys, rank) && ParsesLetters(sys.parse) && s.IsLogical()
    requires Solves(sys, user, f) && Solves(sys, user[s := val], g)
    requires WithinRange(IsBool(sys, s), StatusOf(sys, user, Observe(sys, f), s), val)
    ensures g(s) == val
  {
    hide FinalizedSym, StatusOf, Acyclic, Solves, WithinRange;
    ChangeSticksInMenus(e, c0, c, dirDep, defs, root, s, sys, rank, user, f, g, val);
  }

  /** A selected symbol is at least as high as each symbol that selects it, under
      the condition of the select; but if its own dependency is n, it is n. */
  lemma SelectsHold(e: Entries, c: Conds, order: seq<Id>, s: Sym, x: Id, p: PropId,
                    sys: System, user: UserValues, f: Sym -> Tri)
    requires x in order && Selects(e, PSelect, s, x, p) && s.IsLogical()
    requires DeclOf(sys.cfg, s).revDep == Lookup(ReversedBy(e, c, order, PSelect), s)
    requires Solves(sys, user, f)
    ensures var v := Observe(sys, f);
      Force(e, c, v, x, p) > NO ==>
        if StatusOf(sys, user, v, s).dir == NO then f(s) == NO else f(s) >= Force(e, c, v, x, p)
  {
    ReverseDepMeans(e, c, order, PSelect, s, Observe(sys, f));
    assert (x, p) in PropsAt(e, order);
    assert Meets(sys, user, f, s);
  }

  /** Two definitions of which the first has no condition: the direct dependency
      is that of the second, although the first is always there. */
  lemma UnconditionalIsLost(e: Entries, c: Conds, s: Sym, x: Id, y: Id)
    requires Defines(e, s, x) && Defines(e, s, y) && c.Dep(x).None?
    ensures DirDepOf(e, c, [x, y], s) == c.Dep(y)
  {
    assert [x, y][..1] == [x] && [x][..0] == [];
    assert DirDepOf(e, c, [x], s) == None;
  }

  /** In that order: dependencies and selects are put together as they are met. */
  lemma InOrderOfDefinitions(e: Entries, c: Conds, s: Sym, x: Id, y: Id)
    requires Defines(e, s, x) && Defines(e, s, y) && c.Dep(x).Some? && c.Dep(y).Some?
    ensures DirDepOf(e, c, [x, y], s) == Some(Or(c.Dep(x).value, c.Dep(y).value))
  {
    assert [x, y][..1] == [x] && [x][..0] == [];
    assert DirDepOf(e, c, [x], s) == c.Dep(x);
  }

  lemma InOrderOfSelects(m: map<Sym, Expr>, t: Sym, a: Sym, b: Sym, cond: Expr)
    requires t !in m
    ensures Lookup(AddReverse(AddReverse(m, t, a, Some(cond)), t, b, None), t)
         == Some(Or(And(Symbol(a), cond), Symbol(b)))
  {}
}
