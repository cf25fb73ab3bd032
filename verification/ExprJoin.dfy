/** The joining rules of expr.c: when two operands of one && or || collapse. */
module ExprJoin {
  import opened Options
  import opened Exprs
  import opened ExprSimplify
  import opened ExprEq

  predicate IsEqualityTest(e: Expr) { e.Comp? && (e.rel.EQ? || e.rel.NE?) }

  // The symbol the first operand is about; None where the rules give up.
  function FirstSym(e: Expr): Option<Sym> {
    match e
    case Symbol(s) => Some(s)
    case Comp(_, l, _) => if IsEqualityTest(e) then Some(l) else None
    case Not(a) =>
      (match a
       case Symbol(s) => Some(s)
       case Comp(_, l, _) => if IsEqualityTest(a) then Some(l) else None
       case _ => None)
    case Bin(_, _, _) => None
  }

  // For the second operand a negated comparison is not looked into.
  function SecondSym(e: Expr): Option<Sym> {
    if e.Not? && !e.arg.Symbol? then None else FirstSym(e)
  }

  predicate Tests(e: Expr, rel: Rel, c: Sym) { e.Comp? && e.rel == rel && e.rhs == c }

  // One operand tests for equality (or not) with b and the other with c.
  predicate TestPair(e1: Expr, e2: Expr, rel: Rel, b: Sym, c: Sym) {
    (Tests(e1, rel, b) && Tests(e2, rel, c)) || (Tests(e1, rel, c) && Tests(e2, rel, b))
  }

  // One operand is the bare symbol and the other a test of it.
  predicate SymbolAndTest(e1: Expr, e2: Expr, rel: Rel, c: Sym) {
    (e1.Symbol? && Tests(e2, rel, c)) || (e2.Symbol? && Tests(e1, rel, c))
  }

  predicate IsNotSymbol(e: Expr) { e.Not? && e.arg.Symbol? }

  /** expr_join_or; None means that the operands stay as they are. */
  function JoinOr(e1: Expr, e2: Expr): ExprPtr {
    if Equal(e1, e2) then Some(e1)
    else if FirstSym(e1).None? || FirstSym(e1) != SecondSym(e2) then None
    else
      var s := FirstSym(e1).value;
      if s.Type().Tristate? && TestPair(e1, e2, EQ, SymYes, SymMod) then Some(Comp(NE, s, SymNo))
      else if s.Type().Tristate? && TestPair(e1, e2, EQ, SymYes, SymNo) then Some(Comp(NE, s, SymMod))
      else if s.Type().Tristate? && TestPair(e1, e2, EQ, SymMod, SymNo) then Some(Comp(NE, s, SymYes))
      else if s.Type().Boolean? && ((IsNotSymbol(e1) && e2.Symbol?) || (IsNotSymbol(e2) && e1.Symbol?))
      then Some(YES_EXPR)
      else None
  }

  // (a = b) && (a != c), either way round, with b and c constant.
  predicate ConstTests(e1: Expr, e2: Expr) {
    && e1.Comp? && e1.rel.EQ? && e1.rhs.IsConst()
    && e2.Comp? && e2.rel.NE? && e2.rhs.IsConst()
  }

  function JoinConstTests(s: Sym, b: Sym, c: Sym): Expr {
    if b != c then Comp(EQ, s, b) else NO_EXPR
  }

  // Both operands are about the logical symbol s.
  function JoinAndRule(s: Sym, e1: Expr, e2: Expr): ExprPtr {
    if SymbolAndTest(e1, e2, EQ, SymYes) then Some(Comp(EQ, s, SymYes))
    else if SymbolAndTest(e1, e2, NE, SymNo) then Some(Symbol(s))
    else if SymbolAndTest(e1, e2, NE, SymMod) then Some(Comp(EQ, s, SymYes))
    else if s.Type().Boolean? then None
    else if ConstTests(e1, e2) then Some(JoinConstTests(s, e1.rhs, e2.rhs))
    else if ConstTests(e2, e1) then Some(JoinConstTests(s, e2.rhs, e1.rhs))
    else if TestPair(e1, e2, NE, SymYes, SymNo) then Some(Comp(EQ, s, SymMod))
    else if TestPair(e1, e2, NE, SymYes, SymMod) then Some(Comp(EQ, s, SymNo))
    else if TestPair(e1, e2, NE, SymMod, SymNo) then Some(Comp(EQ, s, SymYes))
    else None
  }

  /** expr_join_and */
  function JoinAnd(e1: Expr, e2: Expr): ExprPtr {
    if Equal(e1, e2) then Some(e1)
    else if FirstSym(e1).None? || FirstSym(e1) != SecondSym(e2) then None
    else if !FirstSym(e1).value.IsLogical() then None
    else JoinAndRule(FirstSym(e1).value, e1, e2)
  }

  function Join(op: Op, e1: Expr, e2: Expr): ExprPtr {
    if op.AndOp? then JoinAnd(e1, e2) else JoinOr(e1, e2)
  }

  // The rule for (a = b) && (a != c), with different constants.
  predicate UsesConstRule(e1: Expr, e2: Expr) {
    && e1.Comp? && e2.Comp? && e1.lhs == e2.lhs && e1.lhs.Type().Tristate?
    && (ConstTests(e1, e2) || ConstTests(e2, e1)) && e1.rhs != e2.rhs
  }

  /** That rule takes different constants to be different values; under v the
      tested symbol equals both. */
  predicate Collide(e1: Expr, e2: Expr, v: Valuation) {
    UsesConstRule(e1, e2) && v.cmp(e1.lhs, e1.rhs) == 0 && v.cmp(e2.lhs, e2.rhs) == 0
  }

  lemma JoinOrKeepsValue(e1: Expr, e2: Expr, v: Valuation)
    requires Consistent(v) && JoinOr(e1, e2).Some?
    ensures Eval(JoinOr(e1, e2).value, v) == Max(Eval(e1, v), Eval(e2, v))
  {
    if Equal(e1, e2) {
      EqualIsSound(e1, e2, v);
    }
  }

  lemma JoinAndRuleKeepsValue(s: Sym, e1: Expr, e2: Expr, v: Valuation)
    requires Consistent(v) && s.IsLogical()
    requires FirstSym(e1) == SecondSym(e2) == Some(s) && JoinAndRule(s, e1, e2).Some?
    ensures Eval(JoinAndRule(s, e1, e2).value, v) == Min(Eval(e1, v), Eval(e2, v)) <==> !Collide(e1, e2, v)
  {}

  /** A conjunction is joined correctly exactly when its tests do not collide. */
  lemma JoinAndKeepsValue(e1: Expr, e2: Expr, v: Valuation)
    requires Consistent(v) && JoinAnd(e1, e2).Some?
    ensures Eval(JoinAnd(e1, e2).value, v) == Min(Eval(e1, v), Eval(e2, v)) <==> !Collide(e1, e2, v)
  {
    if Equal(e1, e2) {
      EqualIsSound(e1, e2, v);
      assert !(e1.Comp? && e2.Comp?) || e1 == e2;
    } else {
      JoinAndRuleKeepsValue(FirstSym(e1).value, e1, e2, v);
    }
  }

  // The constant c is, as a number or as a text, the tristate t.
  predicate SpelledBy(p: Parser, t: Tri, c: Sym) {
    CompareStrings(p, TriText(t), Tristate, c.Name(), c.Type()) == 0
  }

  predicate NeverSpelled(p: Parser, c: Sym) {
    c.Type().Unknown? && !SpelledBy(p, NO, c) && !SpelledBy(p, MOD, c) && !SpelledBy(p, YES, c)
  }

  /** Tristate symbols are compared with no constant but y, m and n and those
      that no tristate is spelled by. */
  predicate SafeTests(e: Expr, p: Parser) {
    match e
    case Symbol(_) => true
    case Comp(_, l, r) => l.Type().Tristate? && r.IsConst() ==> r.IsTriConst() || NeverSpelled(p, r)
    case Not(a) => SafeTests(a, p)
    case Bin(_, l, r) => SafeTests(l, p) && SafeTests(r, p)
  }

  /** A tristate symbol equals a constant only if its value spells it. */
  ghost predicate Reads(v: Valuation, p: Parser) {
    forall a: Sym, c: Sym :: a.Type().Tristate? && c.IsConst() && c.Type().Unknown? && v.cmp(a, c) == 0 ==>
      SpelledBy(p, v.tri(a), c)
  }

  /** What else is known of a tree: that it is normal, and that the symbols
      standing alone in it are logical; and how its constants are read. */
  datatype Form = Form(normal: bool, logical: bool, parse: Parser)

  /** What every rewriting of a dependency keeps. */
  predicate IsTidy(e: Expr, form: Form) {
    SafeTests(e, form.parse) && (form.normal ==> IsNormal(e)) && (form.logical ==> IsLogicalExpr(e))
  }

  lemma SafeTestsNeverCollide(e1: Expr, e2: Expr, v: Valuation, p: Parser)
    requires Consistent(v) && Reads(v, p) && SafeTests(e1, p) && SafeTests(e2, p)
    ensures !Collide(e1, e2, v)
  {
    hide SpelledBy;
  }

  lemma JoinKeepsValue(op: Op, e1: Expr, e2: Expr, v: Valuation, p: Parser)
    requires Consistent(v) && Reads(v, p) && SafeTests(e1, p) && SafeTests(e2, p)
    requires Join(op, e1, e2).Some?
    ensures Eval(Join(op, e1, e2).value, v) == Apply(op, Eval(e1, v), Eval(e2, v))
  {
    hide SafeTests, Reads, Collide;
    if op.AndOp? {
      JoinAndKeepsValue(e1, e2, v);
      SafeTestsNeverCollide(e1, e2, v, p);
    } else {
      JoinOrKeepsValue(e1, e2, v);
    }
  }

  lemma JoinKeepsTidy(op: Op, e1: Expr, e2: Expr, form: Form)
    requires IsTidy(e1, form) && IsTidy(e2, form) && Join(op, e1, e2).Some?
    ensures IsTidy(Join(op, e1, e2).value, form)
  {
    hide NeverSpelled, Equal;
  }

  lemma JoinIsSmall(op: Op, e1: Expr, e2: Expr)
    requires Join(op, e1, e2).Some? && !HasOp(e1, op)
    ensures !HasOp(Join(op, e1, e2).value, op)
    ensures Size(Join(op, e1, e2).value) < Size(e1) + Size(e2)
  {}

  // ---------- the constant rule ----------

  // Tristates and string values as the evaluator leaves them: bool symbols are
  // not m, logical symbols spell their value, and constants their name.
  ghost predicate IsState(tri: Sym -> Tri, text: Sym -> string) {
    && tri(SymNo) == NO && tri(SymMod) == MOD && tri(SymYes) == YES
    && (forall s: Sym :: s.Type().Boolean? ==> tri(s) != MOD)
    && SpellsTristates(tri, text)
    && (forall s: Sym :: s.IsConst() && !s.IsLogical() ==> text(s) == s.Name())
  }

  /** States of the symbols read constants so. */
  lemma StatesRead(tri: Sym -> Tri, text: Sym -> string, p: Parser)
    requires IsState(tri, text)
    ensures Reads(FromStrings(tri, text, p), p)
  {
    hide CompareStrings;
  }

  // Constants have no type.
  predicate PlainConsts(e: Expr) { e.Comp? && e.rhs.IsConst() ==> e.rhs.Type().Unknown? }

  ghost predicate KeepsValue(e1: Expr, e2: Expr, v: Valuation)
    requires JoinAnd(e1, e2).Some?
  {
    Eval(JoinAnd(e1, e2).value, v) == Min(Eval(e1, v), Eval(e2, v))
  }

  /** A conjunction is joined correctly in every state of the symbols exactly
      when it is not one of two constant tests, or no tristate is spelled by
      both constants. */
  lemma JoinAndAlwaysKeepsValue(e1: Expr, e2: Expr, p: Parser)
    requires JoinAnd(e1, e2).Some? && ParsesLetters(p) && PlainConsts(e1) && PlainConsts(e2)
    ensures (forall tri, text :: IsState(tri, text) ==> KeepsValue(e1, e2, FromStrings(tri, text, p)))
       <==> !(UsesConstRule(e1, e2) && exists t :: SpelledBy(p, t, e1.rhs) && SpelledBy(p, t, e2.rhs))
  {
    hide JoinAnd, KeepsValue, IsState, SpelledBy;
    forall tri, text | IsState(tri, text)
      ensures KeepsValue(e1, e2, FromStrings(tri, text, p))
         <==> !(UsesConstRule(e1, e2) && SpelledBy(p, tri(e1.lhs), e1.rhs) && SpelledBy(p, tri(e1.lhs), e2.rhs))
    {
      KeepsValueInState(e1, e2, p, tri, text);
    }
    if t :| UsesConstRule(e1, e2) && SpelledBy(p, t, e1.rhs) && SpelledBy(p, t, e2.rhs) {
      OneTriIsState(e1.lhs, t);
      assert !KeepsValue(e1, e2, FromStrings(OneTri(e1.lhs, t), OneText(e1.lhs, t), p));
    }
  }

  lemma KeepsValueInState(e1: Expr, e2: Expr, p: Parser, tri: Sym -> Tri, text: Sym -> string)
    requires JoinAnd(e1, e2).Some? && ParsesLetters(p) && PlainConsts(e1) && PlainConsts(e2) && IsState(tri, text)
    ensures KeepsValue(e1, e2, FromStrings(tri, text, p))
       <==> !(UsesConstRule(e1, e2) && SpelledBy(p, tri(e1.lhs), e1.rhs) && SpelledBy(p, tri(e1.lhs), e2.rhs))
  {
    hide JoinAnd;
    StringsAreConsistent(tri, text, p);
    JoinAndKeepsValue(e1, e2, FromStrings(tri, text, p));
  }

  lemma OneTriIsState(a: Sym, t: Tri)
    requires a.Type().Tristate?
    ensures IsState(OneTri(a, t), OneText(a, t)) && OneTri(a, t)(a) == t
  {}

  // ---------- where the constant rule fails ----------

  // One symbol has a tristate value, and everything else is n.
  function OneTri(a: Sym, t: Tri): Sym -> Tri {
    (s: Sym) => if s == SymYes then YES else if s == SymMod then MOD
                else if s == a && a.Named? then t else NO
  }

  function OneText(a: Sym, t: Tri): Sym -> string {
    (s: Sym) => SpellOne(a, t, s)
  }

  function SpellOne(a: Sym, t: Tri, s: Sym): string {
    if s.IsLogical() then TriText(OneTri(a, t)(s)) else s.Name()
  }

  // That state, with "2" read as the number it is.
  function OneSymbol(a: Sym, t: Tri): Valuation {
    FromStrings(OneTri(a, t), OneText(a, t), OnlyTwo)
  }

  function OnlyTwo(text: string, ty: SymType): Number {
    if text == "2" then Signed(2) else NotNumber
  }

  lemma OneSymbolIsConsistent(a: Sym, t: Tri)
    requires a.Type().Tristate?
    ensures Consistent(OneSymbol(a, t))
  {
    assert "2"[0] == '2' && "n"[0] == 'n' && "m"[0] == 'm' && "y"[0] == 'y';
    StringsAreConsistent(OneTri(a, t), OneText(a, t), OnlyTwo);
  }

  /** (A = y) && (A != "2") becomes A = y, which is y when A is y, although
      "2" is the number of y and the conjunction is n. */
  lemma QuotedNumberIsJoinedWrongly()
    ensures var a := Named("A", Tristate, false);
      var e1, e2 := Comp(EQ, a, SymYes), Comp(NE, a, Named("2", Unknown, true));
      var v := OneSymbol(a, YES);
      && Consistent(v)
      && JoinAnd(e1, e2) == Some(e1)
      && Eval(e1, v) == YES && Eval(And(e1, e2), v) == NO
  {
    var a, two := Named("A", Tristate, false), Named("2", Unknown, true);
    var text := OneText(a, YES);
    OneSymbolIsConsistent(a, YES);
    assert "n"[0] == 'n' && "m"[0] == 'm' && "y"[0] == 'y';
    assert text(a) == "y" && "y" != "n" && "y" != "m";
    assert text(two) == "2";
    assert Parse(OnlyTwo, text(a), a.Type()) == Signed(2);
    assert Parse(OnlyTwo, text(two), two.Type()) == Signed(2);
    assert Compare(text, OnlyTwo, a, two) == 0;
  }
}
