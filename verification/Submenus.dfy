/** How menu_finalize decides which entries belong in the automatic submenu of a
    symbol, and when that decision is right. */
module Submenus {
  import opened Options
  import opened Exprs
  import opened ExprSimplify
  import opened ExprEq
  import opened ExprAc
  import opened ExprSuperset
  import opened ExprJoin
  import opened ExprDups
  import opened MenuConds

  /** expr_contains_symbol */
  predicate ContainsSymbol(e: Expr, s: Sym) {
    match e
    case Bin(_, l, r) => ContainsSymbol(l, s) || ContainsSymbol(r, s)
    case Symbol(t) => t == s
    case Comp(_, l, r) => l == s || r == s
    case Not(a) => ContainsSymbol(a, s)
  }

  /** expr_depends_symbol */
  predicate DependsSymbol(e: Expr, s: Sym) {
    match e
    case Bin(op, l, r) => op.AndOp? && (DependsSymbol(l, s) || DependsSymbol(r, s))
    case Symbol(t) => t == s
    case Comp(rel, l, r) => l == s && ((rel.EQ? && (r.SymYes? || r.SymMod?)) || (rel.NE? && r.SymNo?))
    case Not(_) => false
  }

  /** An expression that depends on s is n whenever s is. */
  lemma {:induction false} DependsIsHard(e: Expr, s: Sym, v: Valuation)
    requires Consistent(v) && s.IsLogical() && DependsSymbol(e, s) && v.tri(s) == NO
    ensures Eval(e, v) == NO
  {
    match e
    case Bin(_, l, r) =>
      if DependsSymbol(l, s) {
        DependsIsHard(l, s, v);
      } else {
        DependsIsHard(r, s, v);
      }
    case Symbol(_) =>
    case Comp(_, _, _) =>
  }

  // The test "cond is not n", simplified.
  function NotNoTest(cond: ExprPtr): Expr {
    EliminateDups(Transform(TransComparePtr(cond, false, SymNo)))
  }

  /** Whether the entry with condition dep goes into the submenu of s, whose
      prompt has the condition base. */
  predicate JoinsSubmenu(s: Sym, base: ExprPtr, dep: ExprPtr) {
    dep.Some? && ContainsSymbol(dep.value, s) &&
    (DependsSymbol(dep.value, s) || EliminateEq(NotNoTest(dep), NotNoTest(base)).1 == YES_EXPR)
  }

  // An entry with the condition dep is visible only if s is not n, or at least
  // the prompt of s is visible.
  predicate EntryDepends(s: Sym, base: ExprPtr, dep: ExprPtr, v: Valuation) {
    EvalPtr(dep, v) != NO ==> v.tri(s) != NO || EvalPtr(base, v) != NO
  }

  // ---------- what is tested ----------

  /** What the test decides for e: a symbol that is negated is compared with n
      unless it is bool, and one that is not logical is compared as well. */
  function Tested(e: Expr): Expr {
    match e
    case Symbol(s) => if s.IsLogical() || s.IsTriConst() then e else Comp(NE, s, SymNo)
    case Not(a) => if a.Symbol? && !a.sym.Type().Boolean? then Comp(EQ, a.sym, SymNo) else e
    case Bin(op, l, r) => Bin(op, Tested(l), Tested(r))
    case Comp(_, _, _) => e
  }

  function TestedPtr(e: ExprPtr): ExprPtr { if e.None? then None else Some(Tested(e.value)) }

  lemma {:induction false} TestedIsTidy(e: Expr, p: Parser)
    requires IsTidy(e, Form(true, false, p))
    ensures IsTidy(Tested(e), Form(true, true, p))
  {
    match e
    case Bin(_, l, r) => TestedIsTidy(l, p); TestedIsTidy(r, p);
    case Not(_) =>
    case Symbol(_) =>
    case Comp(_, _, _) =>
  }

  lemma {:induction false} TestedIsExact(e: Expr, v: Valuation)
    requires Consistent(v) && IsNormal(e)
    ensures !NegatesMod(Tested(e), v)
    ensures IsLogicalExpr(e) ==> Eval(Tested(e), v) <= Eval(e, v)
    ensures IsLogicalExpr(e) && !NegatesMod(e, v) ==> Eval(Tested(e), v) == Eval(e, v)
  {
    match e
    case Bin(_, l, r) => TestedIsExact(l, v); TestedIsExact(r, v);
    case Not(a) =>
      assert IsLogicalExpr(e) == IsLogicalExpr(a) && Eval(e, v) == Negate(v.tri(a.sym));
      assert IsLogicalExpr(a) ==> (v.cmp(a.sym, SymNo) == 0 <==> v.tri(a.sym) == v.tri(SymNo));
    case Symbol(_) =>
    case Comp(_, _, _) =>
  }

  /** The two are tested in the same way. */
  lemma {:induction false} TestedTestsAlike(e: Expr, equal: bool)
    requires IsNormal(e)
    ensures Transform(TransCompare(Tested(e), equal, SymNo)) == Transform(TransCompare(e, equal, SymNo))
  {
    match e
    case Bin(op, l, r) =>
      TestedTestsAlike(l, true);
      TestedTestsAlike(r, true);
      var x, y := Bin(Dual(op), TransCompare(l, true, SymNo), TransCompare(r, true, SymNo)),
                  Bin(Dual(op), TransCompare(Tested(l), true, SymNo), TransCompare(Tested(r), true, SymNo));
      assert TransCompare(e, equal, SymNo) == NotIf(!equal, x);
      assert TransCompare(Tested(e), equal, SymNo) == NotIf(!equal, y);
      assert Transform(x) == Transform(y);
      NegatedAlike(x, y);
    case Not(_) =>
    case Symbol(_) =>
    case Comp(_, _, _) =>
  }

  lemma NegatedAlike(x: Expr, y: Expr)
    requires Transform(x) == Transform(y)
    ensures Transform(Not(x)) == Transform(Not(y))
  {}

  lemma {:induction false} TransCompareKeepsTests(e: Expr, equal: bool, c: Sym, p: Parser)
    requires c == SymYes || c == SymNo
    requires SafeTests(e, p)
    ensures SafeTests(TransCompare(e, equal, c), p)
  {
    match e
    case Bin(_, l, r) => TransCompareKeepsTests(l, true, c, p); TransCompareKeepsTests(r, true, c, p);
    case Not(a) => TransCompareKeepsTests(a, !equal, c, p);
    case Symbol(_) =>
    case Comp(_, _, _) =>
  }

  /** The simplified test holds exactly if the tested expression is not n. */
  lemma NotNoTestMeans(cond: ExprPtr, v: Valuation, p: Parser)
    requires Consistent(v) && Reads(v, p) && IsTidyPtr(cond, p)
    ensures Eval(NotNoTest(cond), v) == Truth(EvalPtr(TestedPtr(cond), v) != NO)
    ensures IsNormal(NotNoTest(cond))
  {
    var t := TestedPtr(cond);
    var c := TransComparePtr(t, false, SymNo);
    if cond.Some? {
      TestedIsTidy(cond.value, p);
      TestedIsExact(cond.value, v);
      TransCompareBounds(t.value, false, SymNo, v);
      TransCompareKeepsTests(t.value, false, SymNo, p);
      TestedTestsAlike(cond.value, false);
    }
    assert NotNoTest(cond) == NotNoTest(t) == EliminateDups(Transform(c));
    hide EliminateDups, Transform, TransCompare, NotNoTest;
    TransformKeepsValue(c, v);
    TransformTidies(c, p);
    EliminateDupsKeepsValue(Transform(c), v, Form(true, false, p));
  }

  // ---------- tests have no operand y or n ----------

  // No y or n, and none comes of a test of a bool symbol.
  predicate NoConstants(e: Expr) {
    match e
    case Symbol(s) => s.Named?
    case Comp(rel, l, r) => IsBoolTest(rel, l, r) ==> !r.SymMod?
    case Not(a) => NoConstants(a)
    case Bin(_, l, r) => NoConstants(l) && NoConstants(r)
  }

  lemma {:induction false} TransformHasNone(e: Expr)
    requires NoConstants(e)
    ensures NoConstants(Transform(e))
    decreases Weight(e)
  {
    TransformIsNormal(e);
    match e
    case Symbol(_) =>
    case Comp(_, _, _) =>
    case Bin(_, l, r) => TransformHasNone(l); TransformHasNone(r);
    case Not(a) =>
      TransformIsNormal(a);
      TransformHasNone(a);
      match Transform(a)
      case Not(c) => TransformHasNone(c);
      case Bin(op, l, r) =>
        assert NoConstants(Not(l)) && NoConstants(Not(r));
        TransformHasNone(DeMorgan(op, l, r));
      case Comp(_, _, _) =>
      case Symbol(_) =>
  }

  lemma {:induction false} CompareHasNone(e: Expr, equal: bool)
    requires IsNormal(e)
    ensures NoConstants(TransCompare(e, equal, SymNo))
  {
    match e
    case Bin(_, l, r) => CompareHasNone(l, true); CompareHasNone(r, true);
    case Not(_) =>
    case Symbol(_) =>
    case Comp(_, _, _) =>
  }

  lemma {:induction false} NoOperandIsYn(e: Expr)
    requires NoConstants(e)
    ensures !HasYnOperand(e)
  {
    if e.Bin? {
      NoOperandIsYn(e.left);
      NoOperandIsYn(e.right);
    }
  }

  lemma {:induction false} DupsKeepNoOperand(e: Expr)
    requires !HasYnOperand(e)
    ensures !HasYnOperand(EliminateDups(e))
    decreases Size(e)
  {
    var (t, joins) := DupsPass(e);
    PassProgress(e);
    if joins > 0 {
      EliminateYnRemoves(t);
      DupsKeepNoOperand(EliminateYn(t));
    }
  }

  lemma {:induction false} NormalIsReduced(e: Expr)
    requires IsNormal(e) && !HasYnOperand(e)
    ensures IsReduced(e)
  {
    if e.Bin? {
      NormalIsReduced(e.left);
      NormalIsReduced(e.right);
    }
  }

  lemma TestIsReduced(cond: ExprPtr)
    requires (cond.Some? ==> IsNormal(cond.value)) && IsNormal(NotNoTest(cond))
    ensures IsReduced(NotNoTest(cond))
  {
    if cond.Some? {
      var c := TransCompare(cond.value, false, SymNo);
      CompareHasNone(cond.value, false);
      TransformHasNone(c);
      NoOperandIsYn(Transform(c));
      DupsKeepNoOperand(Transform(c));
    }
    NormalIsReduced(NotNoTest(cond));
  }

  // ---------- when the test is right ----------

  /** An entry is taken because its condition is n whenever s is, or because its
      tested condition is n whenever the tested condition of the prompt is. */
  lemma JoinedEntries(s: Sym, base: ExprPtr, dep: ExprPtr, v: Valuation, p: Parser)
    requires Consistent(v) && Reads(v, p) && s.IsLogical()
    requires IsTidyPtr(base, p) && IsTidyPtr(dep, p) && JoinsSubmenu(s, base, dep)
    ensures if DependsSymbol(dep.value, s) then v.tri(s) == NO ==> EvalPtr(dep, v) == NO
            else EvalPtr(TestedPtr(dep), v) != NO ==> EvalPtr(TestedPtr(base), v) != NO
  {
    if DependsSymbol(dep.value, s) {
      if v.tri(s) == NO {
        DependsIsHard(dep.value, s, v);
      }
    } else {
      NotNoTestMeans(dep, v, p);
      NotNoTestMeans(base, v, p);
      SupersetTestIsSound(NotNoTest(dep), NotNoTest(base), v);
    }
  }

  // The test of the prompt does not hold where the prompt is n.
  predicate IsHonest(base: ExprPtr, v: Valuation) {
    EvalPtr(TestedPtr(base), v) != NO ==> EvalPtr(base, v) != NO
  }

  // As it is for logical symbols.
  lemma LogicalIsHonest(base: ExprPtr, v: Valuation)
    requires Consistent(v) && (base.Some? ==> IsNormal(base.value)) && IsLogicalPtr(base)
    ensures IsHonest(base, v)
  {
    if base.Some? {
      TestedIsExact(base.value, v);
    }
  }

  // Whatever the prompt, if its test is honest: where it takes the entry, the
  // entry depends on s or on the prompt.
  ghost predicate TakenRightly(s: Sym, dep: Expr, v: Valuation, p: Parser) {
    forall base {:trigger JoinsSubmenu(s, base, Some(dep))} ::
      IsTidyPtr(base, p) && IsHonest(base, v) && JoinsSubmenu(s, base, Some(dep)) ==>
        EntryDepends(s, base, Some(dep), v)
  }

  // The test of the entry is no conjunction, or it sees that the entry is not n.
  predicate TestSees(s: Sym, dep: Expr, v: Valuation) {
    HasOp(NotNoTest(Some(dep)), AndOp) && v.tri(s) == NO && Eval(dep, v) != NO ==> Eval(Tested(dep), v) != NO
  }

  /** The test is right under v exactly when it sees the entry: then for every
      prompt with an honest test, and otherwise not even for all of logical symbols. */
  lemma SubmenuTestIsExact(s: Sym, dep: Expr, v: Valuation, p: Parser)
    requires Consistent(v) && Reads(v, p) && s.IsLogical()
    requires IsTidy(dep, Form(true, false, p)) && ContainsSymbol(dep, s)
    ensures TakenRightly(s, dep, v, p) <==> TestSees(s, dep, v)
  {
    hide NotNoTest, Consistent, Reads, Tested, IsTidyPtr, IsHonest, EliminateEq;
    forall base | IsTidyPtr(base, p) && IsHonest(base, v) && JoinsSubmenu(s, base, Some(dep)) && TestSees(s, dep, v)
      ensures EntryDepends(s, base, Some(dep), v)
    {
      SeenEntryDepends(s, base, dep, v, p);
    }
    if !TestSees(s, dep, v) {
      UnseenEntryJoins(s, dep, v, p);
      assert !EntryDepends(s, Some(Tested(dep)), Some(dep), v);
    }
  }

  lemma SeenEntryDepends(s: Sym, base: ExprPtr, dep: Expr, v: Valuation, p: Parser)
    requires Consistent(v) && Reads(v, p) && s.IsLogical() && IsTidy(dep, Form(true, false, p))
    requires IsTidyPtr(base, p) && IsHonest(base, v) && JoinsSubmenu(s, base, Some(dep)) && TestSees(s, dep, v)
    ensures EntryDepends(s, base, Some(dep), v)
  {
    hide NotNoTest, Consistent, Reads, Tested, EliminateEq;
    JoinedEntries(s, base, Some(dep), v, p);
    if !DependsSymbol(dep, s) && !HasOp(NotNoTest(Some(dep)), AndOp) {
      NotNoTestMeans(base, v, p);
      NotNoTestMeans(Some(dep), v, p);
      TestIsReduced(base);
      TestIsReduced(Some(dep));
      OnlyConjunctionsPass(NotNoTest(Some(dep)), NotNoTest(base));
      assert Eval(YES_EXPR, v) == YES by { YesIsYes(v); }
    }
  }

  lemma YesIsYes(v: Valuation)
    requires Consistent(v)
    ensures Eval(YES_EXPR, v) == YES
  {}

  // The prompt whose condition is what is tested of the entry.
  lemma UnseenEntryJoins(s: Sym, dep: Expr, v: Valuation, p: Parser)
    requires Consistent(v) && Reads(v, p) && s.IsLogical() && IsTidy(dep, Form(true, false, p))
    requires ContainsSymbol(dep, s) && !TestSees(s, dep, v)
    ensures var base := Some(Tested(dep));
      IsTidyPtr(base, p) && IsLogicalPtr(base) && IsHonest(base, v) && JoinsSubmenu(s, base, Some(dep))
  {
    var t := NotNoTest(Some(dep));
    TestedTestsAlike(dep, false);
    assert NotNoTest(Some(Tested(dep))) == t;
    hide NotNoTest, Tested, EliminateEq;
    TestedIsTidy(dep, p);
    LogicalIsHonest(Some(Tested(dep)), v);
    NotNoTestMeans(Some(dep), v, p);
    TestIsReduced(Some(dep));
    ConjunctionPasses(t);
  }

  // The test of the entry is no conjunction, or sees the entry under every valuation.
  ghost predicate AlwaysSees(s: Sym, dep: Expr, p: Parser) {
    forall v: Valuation :: Consistent(v) && Reads(v, p) ==> TestSees(s, dep, v)
  }

  /** Over all valuations: no prompt with an honest test takes the entry with the
      condition dep wrongly if and only if the test always sees the entry. */
  lemma SubmenuTestIsRight(s: Sym, dep: Expr, p: Parser)
    requires s.IsLogical() && IsTidy(dep, Form(true, false, p)) && ContainsSymbol(dep, s)
    ensures (forall v: Valuation :: Consistent(v) && Reads(v, p) ==> TakenRightly(s, dep, v, p))
       <==> AlwaysSees(s, dep, p)
  {
    hide TestSees, TakenRightly, Consistent, Reads, ContainsSymbol, IsTidy;
    forall v: Valuation | Consistent(v) && Reads(v, p) ensures TakenRightly(s, dep, v, p) <==> TestSees(s, dep, v) {
      SubmenuTestIsExact(s, dep, v, p);
    }
  }

  // Some NOT stands on something other than a bool symbol.
  predicate NegatesTristate(e: Expr) {
    match e
    case Not(a) => !(a.Symbol? && a.sym.Type().Boolean?)
    case Bin(_, l, r) => NegatesTristate(l) || NegatesTristate(r)
    case _ => false
  }

  lemma {:induction false} BoolsAreNotMod(e: Expr, v: Valuation)
    requires Consistent(v) && !NegatesTristate(e)
    ensures !NegatesMod(e, v)
  {
    if e.Bin? {
      BoolsAreNotMod(e.left, v);
      BoolsAreNotMod(e.right, v);
    }
  }

  /** In particular it sees conditions of logical symbols that negate bool symbols
      only, and others where no symbol they negate is m. */
  lemma LogicalConditionsAreSeen(s: Sym, dep: Expr, v: Valuation)
    requires Consistent(v) && IsNormal(dep) && IsLogicalExpr(dep)
    ensures !NegatesTristate(dep) || !NegatesMod(dep, v) ==> TestSees(s, dep, v)
  {
    hide NotNoTest;
    TestedIsExact(dep, v);
    if !NegatesTristate(dep) {
      BoolsAreNotMod(dep, v);
    }
  }

  /** So an entry is in the submenu of s because it is n whenever s is, or because
      it is n whenever s and its prompt are. */
  lemma SubmenuEntriesDepend(s: Sym, base: ExprPtr, dep: ExprPtr, v: Valuation, p: Parser)
    requires Consistent(v) && Reads(v, p) && s.IsLogical() && JoinsSubmenu(s, base, dep)
    requires IsTidyPtr(base, p) && IsLogicalPtr(base) && IsTidyPtr(dep, p) && IsLogicalPtr(dep)
    ensures DependsSymbol(dep.value, s) && v.tri(s) == NO ==> EvalPtr(dep, v) == NO
    ensures DependsSymbol(dep.value, s) || !NegatesTristate(dep.value) || !NegatesMod(dep.value, v)
        ==> EntryDepends(s, base, dep, v)
  {
    hide TestSees, Consistent, Reads;
    if DependsSymbol(dep.value, s) {
      JoinedEntries(s, base, dep, v, p);
    } else if !NegatesTristate(dep.value) || !NegatesMod(dep.value, v) {
      LogicalConditionsAreSeen(s, dep.value, v);
      LogicalIsHonest(base, v);
      SeenEntryDepends(s, base, dep.value, v, p);
    }
  }

  // ---------- where the submenu test fails ----------

  const TRI_A: Sym := Named("A", Tristate, false)
  const TRI_Q: Sym := Named("Q", Tristate, false)
  const TRI_S: Sym := Named("S", Tristate, false)
  const UNDECLARED: Sym := Named("U", Unknown, false)

  // (S || Q) && own, the condition of the entry after S.
  function EntryOf(own: Expr): Expr { And(Or(Symbol(TRI_S), Symbol(TRI_Q)), own) }

  // A is m, Q is y, and S and the undeclared symbol are n.
  function NegatedMod(): Valuation { FromStrings(s => Tri3(s), s => Text3(s), NoNumbers) }

  function NoNumbers(text: string, ty: SymType): Number { NotNumber }

  function Tri3(s: Sym): Tri {
    if s == SymYes || s == TRI_Q then YES else if s == SymMod || s == TRI_A then MOD else NO
  }

  function Text3(s: Sym): string { if s.IsLogical() then TriText(Tri3(s)) else s.Name() }

  /** The prompt of S has the condition A = n, and the entry after it depends on
      (S || Q) && !A. Its test is (S != n || Q != n) && A = n, so it is taken;
      but it is m where A is m, Q is y and S is n, and then the prompt is n. */
  lemma NegatedSymbolIsTakenWrongly()
    ensures var base, dep := Some(Comp(EQ, TRI_A, SymNo)), Some(EntryOf(Not(Symbol(TRI_A))));
      && IsTidyPtr(base, NoNumbers) && IsLogicalPtr(base) && IsTidyPtr(dep, NoNumbers) && IsLogicalPtr(dep)
      && JoinsSubmenu(TRI_S, base, dep)
      && Consistent(NegatedMod())
      && EvalPtr(dep, NegatedMod()) == MOD
      && !EntryDepends(TRI_S, base, dep, NegatedMod())
  {
    hide JoinsSubmenu, Consistent, NegatedMod, Eval, EntryOf;
    IsTaken(Comp(EQ, TRI_A, SymNo), Not(Symbol(TRI_A)), Comp(EQ, TRI_A, SymNo));
    NegatedModMeans();
    EntryMeans(Not(Symbol(TRI_A)), NegatedMod());
  }

  /** An undeclared symbol is n and has its name as its string value, so the
      test U != n of a prompt with the condition U holds although the prompt is
      invisible. The entry with (S || Q) && U != n is taken, and may be y. */
  lemma UndeclaredSymbolIsTakenWrongly()
    ensures var base, dep := Some(Symbol(UNDECLARED)), Some(EntryOf(Comp(NE, UNDECLARED, SymNo)));
      && IsTidyPtr(base, NoNumbers) && IsTidyPtr(dep, NoNumbers)
      && JoinsSubmenu(TRI_S, base, dep)
      && Consistent(NegatedMod())
      && EvalPtr(dep, NegatedMod()) == YES
      && !EntryDepends(TRI_S, base, dep, NegatedMod())
  {
    hide JoinsSubmenu, Consistent, NegatedMod, Eval, EntryOf;
    IsTaken(Symbol(UNDECLARED), Comp(NE, UNDECLARED, SymNo), Comp(NE, UNDECLARED, SymNo));
    NegatedModMeans();
    EntryMeans(Comp(NE, UNDECLARED, SymNo), NegatedMod());
  }

  lemma NegatedModMeans()
    ensures var v := NegatedMod();
      && Consistent(v) && v.tri(TRI_A) == MOD && v.tri(TRI_S) == NO && v.tri(TRI_Q) == YES
      && Eval(Comp(EQ, TRI_A, SymNo), v) == NO && Eval(Not(Symbol(TRI_A)), v) == MOD
      && Eval(Symbol(UNDECLARED), v) == NO && Eval(Comp(NE, UNDECLARED, SymNo), v) == YES
  {
    assert "U"[0] == 'U' && "n"[0] == 'n';
    StringsAreConsistent(s => Tri3(s), s => Text3(s), NoNumbers);
  }

  lemma EntryMeans(own: Expr, v: Valuation)
    ensures Eval(EntryOf(own), v) == Min(Max(v.tri(TRI_S), v.tri(TRI_Q)), Eval(own, v))
    ensures SafeTests(own, NoNumbers) && IsNormal(own) ==>
      IsTidy(EntryOf(own), Form(true, IsLogicalExpr(own), NoNumbers))
  {
    assert SafeTests(EntryOf(own).left, NoNumbers) && IsNormal(EntryOf(own).left) && IsLogicalExpr(EntryOf(own).left);
    assert Eval(Or(Symbol(TRI_S), Symbol(TRI_Q)), v) == Max(v.tri(TRI_S), v.tri(TRI_Q));
  }

  // A test x of a symbol for being n, or for not being n.
  predicate IsNoTest(x: Expr) {
    IsEqualityTest(x) && x.rhs == SymNo && !x.lhs.Type().Boolean? && x.lhs != TRI_S && x.lhs != TRI_Q
  }

  // Both tests have the operand x, so cancelling leaves y of the prompt's.
  lemma IsTaken(base: Expr, own: Expr, x: Expr)
    requires IsNoTest(x) && Transform(TransCompare(base, false, SymNo)) == x
    requires Transform(TransCompare(own, true, SymNo)) == Comp(NegateRel(x.rel), x.lhs, SymNo)
    ensures JoinsSubmenu(TRI_S, Some(base), Some(EntryOf(own)))
  {
    hide EliminateDups, DupsPass, Transform, TransCompare, Dups1, EliminateEq;
    var s, q := Comp(NE, TRI_S, SymNo), Comp(NE, TRI_Q, SymNo);
    EntryTest(own, x);
    OperandsApart(x);
    NothingToJoin(OrOp, s, q);
    NothingToJoin(AndOp, Or(s, q), x);
    SupersetTestPasses(Or(s, q), x);
    assert ContainsSymbol(EntryOf(own).left, TRI_S);
  }

  lemma EntryTest(own: Expr, x: Expr)
    requires IsNoTest(x) && Transform(TransCompare(own, true, SymNo)) == Comp(NegateRel(x.rel), x.lhs, SymNo)
    ensures Transform(TransCompare(EntryOf(own), false, SymNo))
         == And(Or(Comp(NE, TRI_S, SymNo), Comp(NE, TRI_Q, SymNo)), x)
  {
    var s, q, t := Comp(EQ, TRI_S, SymNo), Comp(EQ, TRI_Q, SymNo), TransCompare(own, true, SymNo);
    var some := Or(Comp(NE, TRI_S, SymNo), Comp(NE, TRI_Q, SymNo));
    EntryCompared(own);
    NegatedPair(s, q, t);
    hide TransCompare;
    assert Transform(Not(And(s, q))) == Transform(DeMorgan(AndOp, s, q)) == some;
    assert Transform(Not(Transform(t))) == x;
  }

  lemma EntryCompared(own: Expr)
    ensures TransCompare(EntryOf(own), false, SymNo)
         == Not(Or(And(Comp(EQ, TRI_S, SymNo), Comp(EQ, TRI_Q, SymNo)), TransCompare(own, true, SymNo)))
  {
    assert TransCompare(Or(Symbol(TRI_S), Symbol(TRI_Q)), true, SymNo)
        == And(Comp(EQ, TRI_S, SymNo), Comp(EQ, TRI_Q, SymNo));
  }

  // NOT is pushed below || and into both operands.
  lemma NegatedPair(s: Expr, q: Expr, t: Expr)
    requires Transform(And(s, q)) == And(s, q)
    ensures Transform(Not(Or(And(s, q), t))) == And(Transform(Not(And(s, q))), Transform(Not(Transform(t))))
  {
    assert Transform(Or(And(s, q), t)) == Or(And(s, q), Transform(t));
    assert Transform(DeMorgan(OrOp, And(s, q), Transform(t)))
        == And(Transform(Not(And(s, q))), Transform(Not(Transform(t))));
  }

  lemma OperandsApart(x: Expr)
    requires IsNoTest(x)
    ensures var s, q := Comp(NE, TRI_S, SymNo), Comp(NE, TRI_Q, SymNo);
      && JoinOr(s, q).None? && JoinOr(q, s).None? && JoinAnd(Or(s, q), x).None? && JoinAnd(x, Or(s, q)).None?
      && DupsPass(s) == (s, 0) && DupsPass(q) == (q, 0) && DupsPass(x) == (x, 0) && EliminateDups(x) == x
  {}

  lemma SupersetTestPasses(some: Expr, x: Expr)
    requires some == Or(Comp(NE, TRI_S, SymNo), Comp(NE, TRI_Q, SymNo)) && IsNoTest(x)
    ensures EliminateEq(And(some, x), x).1 == YES_EXPR
  {
    assert Equal(x, x);
    assert EliminateEq1(AndOp, some, x) == (some, x);
    assert EliminateEq1(AndOp, x, x) == (YES_EXPR, YES_EXPR);
    assert EliminateEq1(AndOp, And(some, x), x) == (And(some, YES_EXPR), YES_EXPR);
    assert BothPasses(And(some, x), x).1 == YES_EXPR;
  }
}
