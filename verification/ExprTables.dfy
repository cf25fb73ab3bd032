/** Which operands the rules of expr.c join, and that no joinable pair is left. */
module ExprTables {
  import opened Options
  import opened Exprs
  import opened ExprSimplify
  import opened ExprEq
  import opened ExprJoin
  import opened ExprDups

  // ---------- the rules ----------

  // x, z and w are y, m and n in some order.
  predicate AreTheThree(x: Sym, z: Sym, w: Sym) {
    x.IsTriConst() && z.IsTriConst() && w.IsTriConst() && x != z && x != w && z != w
  }

  /** Equal operands become one. */
  lemma EqualsAreJoined(op: Op, e1: Expr, e2: Expr)
    requires Equal(e1, e2)
    ensures Join(op, e1, e2) == Some(e1)
  {}

  /** Two tests of a tristate symbol against different ones of y, m and n. */
  lemma TestsAreJoined(a: Sym, x: Sym, z: Sym, w: Sym)
    requires a.Type().Tristate? && AreTheThree(x, z, w)
    ensures Join(OrOp, Comp(EQ, a, x), Comp(EQ, a, z)) == Some(Comp(NE, a, w))
    ensures Join(OrOp, Comp(NE, a, x), Comp(NE, a, z)) == None
    ensures Join(OrOp, Comp(EQ, a, x), Comp(NE, a, z)) == Join(OrOp, Comp(NE, a, z), Comp(EQ, a, x)) == None
    ensures Join(AndOp, Comp(NE, a, x), Comp(NE, a, z)) == Some(Comp(EQ, a, w))
    ensures Join(AndOp, Comp(EQ, a, x), Comp(EQ, a, z)) == None
    ensures Join(AndOp, Comp(EQ, a, x), Comp(NE, a, z)) == Join(AndOp, Comp(NE, a, z), Comp(EQ, a, x))
         == Some(Comp(EQ, a, x))
  {}

  /** A test and its opposite. */
  lemma OppositesAreJoined(a: Sym, x: Sym)
    requires a.Type().Tristate? && x.IsTriConst()
    ensures Join(AndOp, Comp(EQ, a, x), Comp(NE, a, x)) == Join(AndOp, Comp(NE, a, x), Comp(EQ, a, x))
         == Some(Symbol(SymNo))
    ensures Join(OrOp, Comp(EQ, a, x), Comp(NE, a, x)) == Join(OrOp, Comp(NE, a, x), Comp(EQ, a, x)) == None
  {}

  /** A bool or tristate symbol and a test of it. */
  lemma SymbolsAreJoined(a: Sym)
    requires a.IsLogical()
    ensures var s, j := Symbol(a), (t: Expr) => Join(AndOp, Symbol(a), t);
      && j(Comp(EQ, a, SymYes)) == Join(AndOp, Comp(EQ, a, SymYes), s) == Some(Comp(EQ, a, SymYes))
      && j(Comp(NE, a, SymMod)) == Join(AndOp, Comp(NE, a, SymMod), s) == Some(Comp(EQ, a, SymYes))
      && j(Comp(NE, a, SymNo)) == Join(AndOp, Comp(NE, a, SymNo), s) == Some(s)
      && j(Comp(EQ, a, SymMod)) == Join(AndOp, Comp(EQ, a, SymMod), s) == None
      && j(Comp(EQ, a, SymNo)) == Join(AndOp, Comp(EQ, a, SymNo), s) == None
      && j(Comp(NE, a, SymYes)) == Join(AndOp, Comp(NE, a, SymYes), s) == None
    ensures forall rel, c :: Join(OrOp, Symbol(a), Comp(rel, a, c)) == None
  {}

  /** A symbol and its negation: y for ||, if it is bool; otherwise they stay. */
  lemma NegationsAreJoined(a: Sym)
    requires a.IsLogical()
    ensures var s, n := Symbol(a), Not(Symbol(a));
      && Join(OrOp, s, n) == Join(OrOp, n, s) == (if a.Type().Boolean? then Some(Symbol(SymYes)) else None)
      && Join(AndOp, s, n) == Join(AndOp, n, s) == None
  {}

  /** Operands about different symbols stay, unless they are equal; so do those
      about symbols that are neither bool nor tristate. */
  lemma OthersStay(op: Op, a: Sym, b: Sym, e1: Expr, e2: Expr)
    requires FirstIsAbout(e1, a) && FirstIsAbout(e2, b) && !Equal(e1, e2)
    requires a != b || !a.IsLogical()
    ensures Join(op, e1, e2) == None
  {}

  // e is the symbol a, a test of it for equality, or the negation of one.
  predicate FirstIsAbout(e: Expr, a: Sym) {
    match e
    case Symbol(s) => s == a
    case Comp(rel, l, _) => l == a && (rel.EQ? || rel.NE?)
    case Not(x) =>
      (match x
       case Symbol(s) => s == a
       case Comp(rel, l, _) => l == a && (rel.EQ? || rel.NE?)
       case _ => false)
    case Bin(_, _, _) => false
  }

  /** An operand that is itself an operator is joined with an equal one only. */
  lemma OperatorsStay(op: Op, e1: Expr, e2: Expr)
    requires (e1.Bin? || e2.Bin?) && !Equal(e1, e2)
    ensures Join(op, e1, e2) == None
  {}

  // ---------- no pair is left ----------

  // What a pass without a join has seen.
  lemma {:induction false} PairsSeen(op: Op, e: Expr, p1: Path, p2: Path, a: Path, b: Path)
    requires OnSpine(op, e, p1) && OnSpine(op, e, p2) && Dups1(op, e, p1, p2).1 == 0
    requires IsOperand(op, e, p1 + a) && IsOperand(op, e, p2 + b) && p1 + a != p2 + b
    ensures Join(op, At(op, e, p1 + a), At(op, e, p2 + b)).None?
    ensures DupsPass(At(op, e, p1 + a)).1 == 0
    decreases |a| + |b|
  {
    Dups1Progress(op, e, p1, p2);
    if HasOp(At(op, e, p1), op) {
      FirstOperandSeen(op, e, p1, p2, a);
      assert p1 + [a[0]] + a[1..] == p1 + a;
      PairsSeen(op, e, p1 + [a[0]], p2, a[1..], b);
    } else if HasOp(At(op, e, p2), op) {
      assert a == [] by { OperandEnds(op, e, p1, a); }
      SecondOperandSeen(op, e, p1, p2, b);
      assert p2 + [b[0]] + b[1..] == p2 + b;
      PairsSeen(op, e, p1, p2 + [b[0]], a, b[1..]);
    } else {
      OperandEnds(op, e, p1, a);
      OperandEnds(op, e, p2, b);
      assert p1 + a == p1 && p2 + b == p2;
      LeavesSeen(op, e, p1, p2);
    }
  }

  // An operand has no operands of the same operator below it.
  lemma {:induction false} OperandEnds(op: Op, e: Expr, p: Path, a: Path)
    requires OnSpine(op, e, p) && IsOperand(op, e, p + a)
    ensures a == [] <==> !HasOp(At(op, e, p), op)
    ensures a != [] ==> OnSpine(op, e, p + [a[0]])
  {
    if p == [] {
      assert p + a == a;
      if a != [] {
        assert [a[0]][1..] == [];
      }
    } else {
      assert (p + a)[1..] == p[1..] + a && (p + a)[0] == p[0];
      OperandEnds(op, Child(e, p[0]), p[1..], a);
      if a != [] {
        assert (p + [a[0]])[1..] == p[1..] + [a[0]];
      }
    }
  }

  lemma FirstOperandSeen(op: Op, e: Expr, p1: Path, p2: Path, a: Path)
    requires OnSpine(op, e, p1) && OnSpine(op, e, p2) && Dups1(op, e, p1, p2).1 == 0
    requires HasOp(At(op, e, p1), op) && IsOperand(op, e, p1 + a)
    ensures a != [] && OnSpine(op, e, p1 + [a[0]]) && Dups1(op, e, p1 + [a[0]], p2).1 == 0
  {
    hide Dups1, IsOperand, OnSpine, HasOp, At;
    OperandEnds(op, e, p1, a);
    FirstBranches(op, e, p1, p2);
    assert a[0] == L || a[0] == R;
  }

  lemma FirstBranches(op: Op, e: Expr, p1: Path, p2: Path)
    requires OnSpine(op, e, p1) && OnSpine(op, e, p2) && Dups1(op, e, p1, p2).1 == 0 && HasOp(At(op, e, p1), op)
    ensures OnSpine(op, e, p1 + [L]) && Dups1(op, e, p1 + [L], p2).1 == 0
    ensures OnSpine(op, e, p1 + [R]) && Dups1(op, e, p1 + [R], p2).1 == 0
  {
    hide Dups1, OnSpine, HasOp, At;
    AtExtend(op, e, p1, L);
    AtExtend(op, e, p1, R);
    var first := Dups1(op, e, p1 + [L], p2);
    AfterFirst(op, e, first.0, p1 + [R], p2);
    FirstOfDups1(op, e, p1, p2);
    Dups1Progress(op, e, p1 + [L], p2);
    assert first.1 == 0 && first.0 == e;
  }

  lemma SecondOperandSeen(op: Op, e: Expr, p1: Path, p2: Path, b: Path)
    requires OnSpine(op, e, p1) && OnSpine(op, e, p2) && Dups1(op, e, p1, p2).1 == 0
    requires !HasOp(At(op, e, p1), op) && HasOp(At(op, e, p2), op) && IsOperand(op, e, p2 + b)
    ensures b != [] && OnSpine(op, e, p2 + [b[0]]) && Dups1(op, e, p1, p2 + [b[0]]).1 == 0
  {
    hide Dups1, IsOperand, OnSpine, HasOp, At;
    OperandEnds(op, e, p2, b);
    SecondBranches(op, e, p1, p2);
    assert b[0] == L || b[0] == R;
  }

  lemma SecondBranches(op: Op, e: Expr, p1: Path, p2: Path)
    requires OnSpine(op, e, p1) && OnSpine(op, e, p2) && Dups1(op, e, p1, p2).1 == 0
    requires !HasOp(At(op, e, p1), op) && HasOp(At(op, e, p2), op)
    ensures OnSpine(op, e, p2 + [L]) && Dups1(op, e, p1, p2 + [L]).1 == 0
    ensures OnSpine(op, e, p2 + [R]) && Dups1(op, e, p1, p2 + [R]).1 == 0
  {
    hide Dups1, OnSpine, HasOp, At;
    AtExtend(op, e, p2, L);
    AtExtend(op, e, p2, R);
    var first := Dups1(op, e, p1, p2 + [L]);
    AfterFirst(op, e, first.0, p1, p2 + [R]);
    SecondOfDups1(op, e, p1, p2);
    Dups1Progress(op, e, p1, p2 + [L]);
    assert first.1 == 0 && first.0 == e;
  }

  lemma LeavesSeen(op: Op, e: Expr, p1: Path, p2: Path)
    requires IsOperand(op, e, p1) && IsOperand(op, e, p2) && p1 != p2 && Dups1(op, e, p1, p2).1 == 0
    ensures Join(op, At(op, e, p1), At(op, e, p2)).None?
    ensures DupsPass(At(op, e, p1)).1 == 0
  {
    var inner := DupsInside(op, e, p1);
    PutElsewhere(op, e, p1, p2, inner.0);
    InsideProgress(op, e, p1);
    OperandIsSmaller(op, e, p1);
    PassProgress(At(op, e, p1));
    assert inner == (At(op, e, p1), e, 0);
  }

  // No two different operands of one level, at this level or inside an operand,
  // can be joined.
  ghost predicate NothingToJoinIn(e: Expr)
    decreases Size(e), 1
  {
    e.Bin? ==> forall p, q :: IsOperand(e.op, e, p) && IsOperand(e.op, e, q) && p != q ==> PairIsDone(e, p, q)
  }

  ghost predicate PairIsDone(e: Expr, p: Path, q: Path)
    requires e.Bin? && IsOperand(e.op, e, p) && IsOperand(e.op, e, q) && p != q
    decreases Size(e), 0
  {
    OperandIsSmaller(e.op, e, p);
    && Join(e.op, At(e.op, e, p), At(e.op, e, q)).None?
    && NothingToJoinIn(At(e.op, e, p))
  }

  lemma {:induction false} UnjoinedIsDone(e: Expr)
    requires DupsPass(e).1 == 0
    ensures NothingToJoinIn(e)
    decreases Size(e)
  {
    if e.Bin? {
      forall p, q | IsOperand(e.op, e, p) && IsOperand(e.op, e, q) && p != q ensures PairIsDone(e, p, q) {
        assert [] + p == p && [] + q == q;
        PairsSeen(e.op, e, [], [], p, q);
        OperandIsSmaller(e.op, e, p);
        UnjoinedIsDone(At(e.op, e, p));
      }
    }
  }

  /** After expr_eliminate_dups no two operands of a level can be joined, at any
      depth; in particular no two are equal. */
  lemma NoDuplicatesLeft(e: Expr)
    ensures NothingToJoinIn(EliminateDups(e))
  {
    EliminateDupsIsIdempotent(e);
    UnjoinedIsDone(EliminateDups(e));
  }

  lemma NoEqualOperands(e: Expr, p: Path, q: Path)
    requires NothingToJoinIn(e) && e.Bin? && IsOperand(e.op, e, p) && IsOperand(e.op, e, q) && p != q
    ensures !Equal(At(e.op, e, p), At(e.op, e, q))
  {
    assert PairIsDone(e, p, q);
    if Equal(At(e.op, e, p), At(e.op, e, q)) {
      EqualsAreJoined(e.op, At(e.op, e, p), At(e.op, e, q));
    }
  }
}
