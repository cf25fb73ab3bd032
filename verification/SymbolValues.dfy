/** What the values of bool and tristate symbols are: the meaning of a
    configuration, without any cache. */
module SymbolValues {
  import opened Options
  import opened Exprs
  import opened ExprSimplify
  import opened ExprJoin
  import opened Graphs
  import opened Kconfig

  /** The fixed surroundings of an evaluation. `text` gives the string value of
      the symbols that are neither bool nor tristate nor constant. */
  datatype System = System(cfg: Config, modules: Tri, text: Sym -> string, parse: Parser)

  // def[S_DEF_USER].tri of the symbols with SYMBOL_DEF_USER.
  type UserValues = map<Sym, Tri>

  /** The calculated fields of struct symbol, and the flag SYMBOL_WRITE. */
  datatype Status = Status(visible: Tri, dir: Tri, rev: Tri, implied: Tri, curr: Tri, write: bool)

  // sym_get_type: tristate symbols are bool while modules are off.
  predicate IsBool(sys: System, s: Sym) {
    s.Type().Boolean? || (s.Type().Tristate? && sys.modules == NO)
  }

  function Lift(isBool: bool, t: Tri): Tri { if isBool then Promote(t) else t }

  function PromptVisibility(props: seq<Property>, v: Valuation): Tri {
    if props == [] then NO
    else if props[0].IsPrompt() then Max(EvalPtr(props[0].visible, v), PromptVisibility(props[1..], v))
    else PromptVisibility(props[1..], v)
  }

  // sym_get_default_prop: the first default whose condition is not n.
  function DefaultProp(props: seq<Property>, v: Valuation): Option<Property> {
    if props == [] then None
    else if props[0].kind.PDefault? && EvalPtr(props[0].visible, v) != NO then Some(props[0])
    else DefaultProp(props[1..], v)
  }

  function DefaultValue(props: seq<Property>, v: Valuation): Tri {
    var p := DefaultProp(props, v);
    if p.None? then NO else Min(EvalPtr(p.value.expr, v), EvalPtr(p.value.visible, v))
  }

  // A NULL reverse dependency is 'no'.
  function EvalReverse(e: ExprPtr, v: Valuation): Tri {
    if e.None? then NO else Eval(e.value, v)
  }

  // What selects and dependencies make of a chosen value.
  function Settle(isBool: bool, dir: Tri, rev: Tri, implied: Tri, chosen: Tri): Tri {
    var t := if dir == NO && rev != NO then NO else Max(chosen, rev);
    if t == MOD && (isBool || implied == YES) then YES else t
  }

  /** sym_calc_visibility and sym_calc_value when the values of all other
      symbols are those of v. */
  function StatusOf(sys: System, user: UserValues, v: Valuation, s: Sym): Status {
    var d := DeclOf(sys.cfg, s);
    var b := IsBool(sys, s);
    var visible := Lift(b, PromptVisibility(d.props, v));
    var dir := Lift(b, EvalPtr(d.dirDep, v));
    var rev := Lift(b, EvalReverse(d.revDep, v));
    var implied := Lift(b, if dir == NO then NO else EvalReverse(d.implied, v));
    var chosen :=
      if visible != NO && s in user then Min(user[s], visible)
      else Max(DefaultValue(d.props, v), implied);
    Status(visible, dir, rev, implied, Settle(b, dir, rev, implied, chosen),
           visible != NO || rev != NO || implied != NO || DefaultProp(d.props, v).Some?)
  }

  // ---------- the whole configuration ----------

  function TextOf(sys: System, val: Sym -> Tri, s: Sym): string {
    if s.IsLogical() then
      (if val(s) == MOD && sys.modules == NO then "n" else TriText(val(s)))
    else if s.IsConst() then s.Name()
    else sys.text(s)
  }

  /** What expressions observe when the tristate values are val. */
  function Observe(sys: System, val: Sym -> Tri): Valuation {
    FromStrings(val, s => TextOf(sys, val, s), sys.parse)
  }

  function StaticTri(s: Sym): Tri {
    if s == SymYes then YES else if s == SymMod then MOD else NO
  }

  // Every symbol has the value that its declaration asks for.
  function Expected(sys: System, user: UserValues, val: Sym -> Tri, s: Sym): Tri {
    if s.IsLogical() then StatusOf(sys, user, Observe(sys, val), s).curr else StaticTri(s)
  }

  ghost predicate Meets(sys: System, user: UserValues, val: Sym -> Tri, s: Sym) {
    val(s) == Expected(sys, user, val, s)
  }

  ghost predicate Solves(sys: System, user: UserValues, val: Sym -> Tri) {
    forall s: Sym {:trigger Meets(sys, user, val, s)} :: Meets(sys, user, val, s)
  }

  ghost function Level(rank: map<Sym, nat>, s: Sym): nat {
    if s in rank then rank[s] + 1 else 0
  }

  ghost predicate DependsBelow(sys: System, rank: map<Sym, nat>, s: Sym) {
    forall t :: t in Edges(sys.cfg, s) ==> Level(rank, t) < Level(rank, s)
  }

  // The configuration has no recursive dependency.
  ghost predicate Acyclic(sys: System, rank: map<Sym, nat>) {
    forall s: Sym {:trigger DependsBelow(sys, rank, s)} :: DependsBelow(sys, rank, s)
  }

  /** The ranking that the search for recursive dependencies leaves behind. */
  lemma RankedIsAcyclic(sys: System, rank: map<Sym, nat>)
    requires Ranked(DependencyGraph(sys.cfg), rank) && sys.cfg.Keys <= rank.Keys
    ensures Acyclic(sys, rank)
  {
    forall s ensures DependsBelow(sys, rank, s) {
      if s in rank {
        assert RankedAbove(DependencyGraph(sys.cfg), rank, s);
        assert forall t :: t in Edges(sys.cfg, s) ==> t in DependencyGraph(sys.cfg)(s);
      }
    }
  }

  /** The plain recursive definition of a symbol's value. */
  ghost function Value(sys: System, user: UserValues, rank: map<Sym, nat>, s: Sym): Tri
    decreases Level(rank, s), 1
  {
    Expected(sys, user, LowerValues(sys, user, rank, s), s)
  }

  ghost function LowerValues(sys: System, user: UserValues, rank: map<Sym, nat>, s: Sym): Sym -> Tri
    decreases Level(rank, s), 0
  {
    t => if Level(rank, t) < Level(rank, s) then Value(sys, user, rank, t) else NO
  }

  ghost function Values(sys: System, user: UserValues, rank: map<Sym, nat>): Sym -> Tri {
    s => Value(sys, user, rank, s)
  }

  // ---------- a value depends on the symbols its declaration mentions ----------

  lemma CompareLocal(f: Sym -> string, g: Sym -> string, p: Parser, l: Sym, r: Sym)
    requires f(l) == g(l) && f(r) == g(r)
    ensures Compare(f, p, l, r) == Compare(g, p, l, r)
  {}

  lemma ObserveLocal(sys: System, e: ExprPtr, f: Sym -> Tri, g: Sym -> Tri)
    requires forall s :: s in SymsPtr(e) ==> f(s) == g(s)
    ensures EvalPtr(e, Observe(sys, f)) == EvalPtr(e, Observe(sys, g))
    ensures EvalReverse(e, Observe(sys, f)) == EvalReverse(e, Observe(sys, g))
  {
    if e.Some? {
      var v, w := Observe(sys, f), Observe(sys, g);
      forall s, t | s in Syms(e.value) && t in Syms(e.value) ensures v.cmp(s, t) == w.cmp(s, t) {
        CompareLocal(s => TextOf(sys, f, s), s => TextOf(sys, g, s), sys.parse, s, t);
      }
      EvalLocal(e.value, v, w);
    }
  }

  lemma {:induction false} PropsLocal(sys: System, props: seq<Property>, f: Sym -> Tri, g: Sym -> Tri)
    requires forall s :: s in PropsSyms(props) ==> f(s) == g(s)
    ensures PromptVisibility(props, Observe(sys, f)) == PromptVisibility(props, Observe(sys, g))
    ensures DefaultProp(props, Observe(sys, f)) == DefaultProp(props, Observe(sys, g))
    ensures DefaultValue(props, Observe(sys, f)) == DefaultValue(props, Observe(sys, g))
  {
    if props != [] {
      var p := props[0];
      if p.IsPrompt() || p.kind.PDefault? {
        ObserveLocal(sys, p.visible, f, g);
      }
      if p.kind.PDefault? {
        ObserveLocal(sys, p.expr, f, g);
      }
      PropsLocal(sys, props[1..], f, g);
    }
  }

  lemma StatusLocal(sys: System, user: UserValues, f: Sym -> Tri, g: Sym -> Tri, s: Sym)
    requires forall t :: t in Edges(sys.cfg, s) ==> f(t) == g(t)
    ensures StatusOf(sys, user, Observe(sys, f), s) == StatusOf(sys, user, Observe(sys, g), s)
  {
    var d := DeclOf(sys.cfg, s);
    ObserveLocal(sys, d.dirDep, f, g);
    ObserveLocal(sys, d.revDep, f, g);
    ObserveLocal(sys, d.implied, f, g);
    PropsLocal(sys, d.props, f, g);
  }

  // ---------- existence and uniqueness ----------

  /** In an acyclic configuration the recursive definition meets every
      symbol's declaration... */
  lemma ValueSolves(sys: System, user: UserValues, rank: map<Sym, nat>)
    requires Acyclic(sys, rank)
    ensures Solves(sys, user, Values(sys, user, rank))
  {
    forall s: Sym ensures Meets(sys, user, Values(sys, user, rank), s) {
      ValueMeetsDeclaration(sys, user, rank, s);
    }
  }

  lemma ValueMeetsDeclaration(sys: System, user: UserValues, rank: map<Sym, nat>, s: Sym)
    requires Acyclic(sys, rank)
    ensures Value(sys, user, rank, s) == Expected(sys, user, Values(sys, user, rank), s)
  {
    var f, g := Values(sys, user, rank), LowerValues(sys, user, rank, s);
    forall t | t in Edges(sys.cfg, s) ensures f(t) == g(t) {
      assert DependsBelow(sys, rank, s);
    }
    StatusLocal(sys, user, f, g, s);
  }

  ghost predicate SameUserValue(u: UserValues, w: UserValues, s: Sym) {
    (s in u <==> s in w) && (s in u ==> u[s] == w[s])
  }

  /** ...and nothing else does: values that solve it agree wherever the user
      values below them do. */
  lemma {:induction false} SolutionsAgree(sys: System, rank: map<Sym, nat>, u: UserValues, w: UserValues,
                                          f: Sym -> Tri, g: Sym -> Tri, s: Sym)
    requires Acyclic(sys, rank) && Solves(sys, u, f) && Solves(sys, w, g)
    requires forall t :: Level(rank, t) <= Level(rank, s) ==> SameUserValue(u, w, t)
    ensures f(s) == g(s)
    decreases Level(rank, s)
  {
    forall t | t in Edges(sys.cfg, s) ensures f(t) == g(t) {
      assert DependsBelow(sys, rank, s);
      SolutionsAgree(sys, rank, u, w, f, g, t);
    }
    StatusLocal(sys, u, f, g, s);
    assert SameUserValue(u, w, s);
    assert Meets(sys, u, f, s) && Meets(sys, w, g, s);
  }

  /** The value does not depend on the order in which symbols are ranked. */
  lemma SolutionIsValue(sys: System, user: UserValues, rank: map<Sym, nat>, f: Sym -> Tri, s: Sym)
    requires Acyclic(sys, rank) && Solves(sys, user, f)
    ensures f(s) == Value(sys, user, rank, s)
  {
    ValueSolves(sys, user, rank);
    SolutionsAgree(sys, rank, user, user, f, Values(sys, user, rank), s);
  }

  /** What expressions observe in a solved configuration is consistent: bool
      symbols are never m, and while modules are off no symbol is. */
  lemma SolutionIsConsistent(sys: System, user: UserValues, val: Sym -> Tri)
    requires Solves(sys, user, val) && ParsesLetters(sys.parse)
    ensures Consistent(Observe(sys, val)) && Reads(Observe(sys, val), sys.parse)
    ensures forall s: Sym :: IsBool(sys, s) ==> val(s) != MOD
  {
    forall s: Sym | IsBool(sys, s) ensures val(s) != MOD {
      assert Meets(sys, user, val, s);
    }
    forall s: Sym | !s.IsLogical() ensures val(s) == StaticTri(s) {
      assert Meets(sys, user, val, s);
    }
    StringsAreConsistent(val, s => TextOf(sys, val, s), sys.parse);
    StatesRead(val, s => TextOf(sys, val, s), sys.parse);
  }

  // ---------- dependencies are hard ----------

  /** Under v, prompts and defaults are no more visible than the dependency. */
  predicate GuardedBy(props: seq<Property>, dep: ExprPtr, v: Valuation) {
    forall i :: 0 <= i < |props| && (props[i].IsPrompt() || props[i].kind.PDefault?) ==>
      (EvalPtr(dep, v) == NO ==> EvalPtr(props[i].visible, v) == NO)
  }

  lemma {:induction false} GuardedAndUnmet(props: seq<Property>, v: Valuation)
    requires forall i :: 0 <= i < |props| && (props[i].IsPrompt() || props[i].kind.PDefault?) ==>
      EvalPtr(props[i].visible, v) == NO
    ensures PromptVisibility(props, v) == NO && DefaultProp(props, v) == None
  {
    if props != [] {
      GuardedAndUnmet(props[1..], v);
    }
  }

  /** An unmet dependency forces n, whatever the user value, the defaults, and
      the symbols that select or imply this one. */
  lemma DependenciesAreHard(sys: System, user: UserValues, v: Valuation, s: Sym)
    requires var d := DeclOf(sys.cfg, s); GuardedBy(d.props, d.dirDep, v)
    requires EvalPtr(DeclOf(sys.cfg, s).dirDep, v) == NO
    ensures StatusOf(sys, user, v, s).curr == NO && StatusOf(sys, user, v, s).visible == NO
  {
    GuardedAndUnmet(DeclOf(sys.cfg, s).props, v);
  }

  // ---------- setting a value ----------

  /** sym_tristate_within_range, from the calculated fields. */
  predicate WithinRange(isBool: bool, t: Status, val: Tri) {
    && t.visible != NO
    && !(isBool && val == MOD)
    && t.visible > t.rev
    && !(t.implied == YES && val == MOD)
    && t.rev <= val <= t.visible
  }

  lemma SettleKeepsChoice(isBool: bool, t: Status, val: Tri)
    requires WithinRange(isBool, t, val)
    ensures Settle(isBool, t.dir, t.rev, t.implied, Min(val, t.visible)) == val
        <==> !(t.dir == NO && t.rev != NO)
  {}

  /** A value accepted by the range test is what the symbol evaluates to next,
      unless the symbol is selected against an unmet dependency. */
  lemma ChangeSticks(sys: System, rank: map<Sym, nat>, user: UserValues,
                     f: Sym -> Tri, g: Sym -> Tri, s: Sym, val: Tri)
    requires Acyclic(sys, rank) && s.IsLogical()
    requires Solves(sys, user, f) && Solves(sys, user[s := val], g)
    requires WithinRange(IsBool(sys, s), StatusOf(sys, user, Observe(sys, f), s), val)
    ensures var t := StatusOf(sys, user, Observe(sys, f), s);
      g(s) == val <==> !(t.dir == NO && t.rev != NO)
  {
    var user' := user[s := val];
    forall t | t in Edges(sys.cfg, s) ensures f(t) == g(t) {
      assert DependsBelow(sys, rank, s);
      SolutionsAgree(sys, rank, user, user', f, g, t);
    }
    StatusLocal(sys, user', f, g, s);
    var t := StatusOf(sys, user, Observe(sys, f), s);
    var t' := StatusOf(sys, user', Observe(sys, f), s);
    assert Meets(sys, user', g, s);
    assert t'.curr == Settle(IsBool(sys, s), t.dir, t.rev, t.implied, Min(val, t.visible));
    SettleKeepsChoice(IsBool(sys, s), t, val);
  }

  // ---------- the exception at an input ----------

  const SYM_A: Sym := Named("A", Tristate, false)
  const SYM_B: Sym := Named("B", Tristate, false)
  const SYM_S: Sym := Named("S", Tristate, false)

  const PROMPTED: Decl := Decl([Property(PPrompt, None, None)], None, None, None)

  /** S has a prompt without condition, a second definition with the dependency
      A = n, and is selected by B; a definition without condition leaves no trace
      in the direct dependency. The user sets A to y and B to m. */
  function SelectedSystem(): System {
    var s := PROMPTED.(dirDep := Some(Comp(EQ, SYM_A, SymNo)), revDep := Some(Symbol(SYM_B)));
    System(map[SYM_A := PROMPTED, SYM_B := PROMPTED, SYM_S := s], YES, (t: Sym) => t.Name(), (_, _) => NotNumber)
  }

  function SelectedUser(): UserValues { map[SYM_A := YES, SYM_B := MOD] }

  function SelectedRank(): map<Sym, nat> { map[SYM_A := 0, SYM_B := 0, SYM_S := 1] }

  lemma SelectedIsAcyclic()
    ensures Acyclic(SelectedSystem(), SelectedRank())
  {
    var sys, rank := SelectedSystem(), SelectedRank();
    forall s: Sym ensures DependsBelow(sys, rank, s) {
      assert Edges(sys.cfg, s) == if s == SYM_S then {SYM_A, SymNo, SYM_B} else {};
    }
  }

  // The status of S in every solution in which the user value of S does not matter.
  lemma SelectedStatus(user: UserValues, f: Sym -> Tri)
    requires Solves(SelectedSystem(), user, f)
    requires SYM_A in user && user[SYM_A] == YES && SYM_B in user && user[SYM_B] == MOD
    ensures var t := StatusOf(SelectedSystem(), user, Observe(SelectedSystem(), f), SYM_S);
      t.visible == YES && t.dir == NO && t.rev == MOD && t.implied == NO && t.curr == NO
  {
    var sys := SelectedSystem();
    var v := Observe(sys, f);
    SolutionIsConsistent(sys, user, f);
    assert Meets(sys, user, f, SYM_A) && Meets(sys, user, f, SYM_B);
    assert PromptVisibility(PROMPTED.props, v) == YES;
    assert f(SYM_A) == YES && f(SYM_B) == MOD;
    assert v.cmp(SYM_A, SymNo) != 0;
    assert EvalReverse(Some(Symbol(SYM_B)), v) == MOD;
  }

  /** The range test accepts y for S, and S evaluates to n next. */
  lemma SelectedChangeIsLost()
    ensures var sys, user, rank := SelectedSystem(), SelectedUser(), SelectedRank();
      var f, g := Values(sys, user, rank), Values(sys, user[SYM_S := YES], rank);
      && Acyclic(sys, rank)
      && Solves(sys, user, f) && Solves(sys, user[SYM_S := YES], g)
      && WithinRange(IsBool(sys, SYM_S), StatusOf(sys, user, Observe(sys, f), SYM_S), YES)
      && g(SYM_S) == NO
  {
    var sys, user, rank := SelectedSystem(), SelectedUser(), SelectedRank();
    SelectedIsAcyclic();
    ValueSolves(sys, user, rank);
    ValueSolves(sys, user[SYM_S := YES], rank);
    SelectedStatus(user, Values(sys, user, rank));
    SelectedStatus(user[SYM_S := YES], Values(sys, user[SYM_S := YES], rank));
    assert Meets(sys, user[SYM_S := YES], Values(sys, user[SYM_S := YES], rank), SYM_S);
  }

  /** Where dependencies guard the prompts that exception cannot arise. */
  lemma GuardedChangeSticks(sys: System, rank: map<Sym, nat>, user: UserValues,
                            f: Sym -> Tri, g: Sym -> Tri, s: Sym, val: Tri)
    requires Acyclic(sys, rank) && s.IsLogical()
    requires Solves(sys, user, f) && Solves(sys, user[s := val], g)
    requires var d := DeclOf(sys.cfg, s); GuardedBy(d.props, d.dirDep, Observe(sys, f))
    requires WithinRange(IsBool(sys, s), StatusOf(sys, user, Observe(sys, f), s), val)
    ensures g(s) == val
  {
    ChangeSticks(sys, rank, user, f, g, s, val);
    if StatusOf(sys, user, Observe(sys, f), s).dir == NO {
      DependenciesAreHard(sys, user, Observe(sys, f), s);
    }
  }

  /** Setting the value a symbol already has is accepted untested. The symbol
      keeps it at the next evaluation exactly if it is not visible, or its value
      is not above the visibility, or a select or an imply holds it up. */
  lemma SameValueSticks(sys: System, rank: map<Sym, nat>, user: UserValues,
                        f: Sym -> Tri, g: Sym -> Tri, s: Sym)
    requires Acyclic(sys, rank) && s.IsLogical()
    requires Solves(sys, user, f) && Solves(sys, user[s := f(s)], g)
    ensures var t := StatusOf(sys, user, Observe(sys, f), s);
      g(s) == f(s) <==>
        t.visible == NO || f(s) <= t.visible || f(s) == t.rev
        || (t.implied == YES && Max(t.visible, t.rev) == MOD)
  {
    var user' := user[s := f(s)];
    forall t | t in Edges(sys.cfg, s) ensures f(t) == g(t) {
      assert DependsBelow(sys, rank, s);
      SolutionsAgree(sys, rank, user, user', f, g, t);
    }
    StatusLocal(sys, user', f, g, s);
    assert Meets(sys, user, f, s) && Meets(sys, user', g, s);
  }
}
