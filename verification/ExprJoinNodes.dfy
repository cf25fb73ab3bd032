/** expr_join_or and expr_join_and on nodes. */
module ExprJoinNodes {
  import opened Options
  import opened Exprs
  import opened ExprEq
  import opened ExprJoin
  import opened ExprNodes

  predicate NodeTests(n: Node, rel: Rel, c: Sym)
    reads n
  {
    n.typ == TComp(rel) && n.right == OfSym(c)
  }

  predicate NodePair(n1: Node, n2: Node, rel: Rel, b: Sym, c: Sym)
    reads n1, n2
  {
    (NodeTests(n1, rel, b) && NodeTests(n2, rel, c)) || (NodeTests(n1, rel, c) && NodeTests(n2, rel, b))
  }

  predicate NodeSymbolAndTest(n1: Node, n2: Node, rel: Rel, c: Sym)
    reads n1, n2
  {
    (n1.typ.TSymbol? && NodeTests(n2, rel, c)) || (n2.typ.TSymbol? && NodeTests(n1, rel, c))
  }

  // e1->type == E_EQUAL && e2->type == E_UNEQUAL, both with constants
  predicate NodeConstTests(n1: Node, n2: Node)
    reads n1, n2
  {
    && n1.typ == TComp(EQ) && n1.right.OfSym? && n1.right.sym.IsConst()
    && n2.typ == TComp(NE) && n2.right.OfSym? && n2.right.sym.IsConst()
  }

  /** What the fields say about the operands. */
  lemma FieldsAgree(t1: Shape, t2: Shape, e1: Expr, e2: Expr)
    requires IsTree(t1, e1) && IsTree(t2, e2)
    ensures forall rel, b, c :: NodePair(t1.top, t2.top, rel, b, c) <==> TestPair(e1, e2, rel, b, c)
    ensures forall rel, c :: NodeSymbolAndTest(t1.top, t2.top, rel, c) <==> SymbolAndTest(e1, e2, rel, c)
    ensures NodeConstTests(t1.top, t2.top) <==> ConstTests(e1, e2)
    ensures NodeConstTests(t2.top, t1.top) <==> ConstTests(e2, e1)
    ensures e1.Comp? ==> t1.top.right == OfSym(e1.rhs)
    ensures e2.Comp? ==> t2.top.right == OfSym(e2.rhs)
  {
    hide IsTree, NodeTests, Tests, NodeConstTests, ConstTests, NodePair, TestPair, NodeSymbolAndTest, SymbolAndTest;
    TestsAgree(t1, e1);
    TestsAgree(t2, e2);
    PairsAgree(t1, t2, e1, e2);
    ConstTestsAgree(t1, t2, e1, e2);
    ConstTestsAgree(t2, t1, e2, e1);
    forall rel, c ensures NodeSymbolAndTest(t1.top, t2.top, rel, c) <==> SymbolAndTest(e1, e2, rel, c) {
      SymbolAndTestAgree(t1, t2, e1, e2, rel, c);
    }
  }

  lemma SymbolAndTestAgree(t1: Shape, t2: Shape, e1: Expr, e2: Expr, rel: Rel, c: Sym)
    requires IsTree(t1, e1) && IsTree(t2, e2)
    ensures NodeSymbolAndTest(t1.top, t2.top, rel, c) <==> SymbolAndTest(e1, e2, rel, c)
  {
    hide IsTree, NodeTests, Tests;
    TestsAgree(t1, e1);
    TestsAgree(t2, e2);
  }

  lemma PairsAgree(t1: Shape, t2: Shape, e1: Expr, e2: Expr)
    requires IsTree(t1, e1) && IsTree(t2, e2)
    ensures forall rel, b, c :: NodePair(t1.top, t2.top, rel, b, c) <==> TestPair(e1, e2, rel, b, c)
  {
    hide IsTree, NodeTests, Tests;
    TestsAgree(t1, e1);
    TestsAgree(t2, e2);
  }

  lemma ConstTestsAgree(t1: Shape, t2: Shape, e1: Expr, e2: Expr)
    requires IsTree(t1, e1) && IsTree(t2, e2)
    ensures NodeConstTests(t1.top, t2.top) <==> ConstTests(e1, e2)
  {
    hide IsTree;
    TestsAgree(t1, e1);
    TestsAgree(t2, e2);
  }

  lemma TestsAgree(t: Shape, e: Expr)
    requires IsTree(t, e)
    ensures forall rel, c :: NodeTests(t.top, rel, c) <==> Tests(e, rel, c)
    ensures t.top.typ.TSymbol? <==> e.Symbol?
    ensures t.top.typ.TComp? <==> e.Comp?
    ensures e.Comp? ==> t.top.typ == TComp(e.rel) && t.top.right == OfSym(e.rhs)
  {}

  // The symbol of a symbol or of a test for equality.
  method SymbolAt(n: Node, ghost t: Shape, ghost e: Expr) returns (s: Option<Sym>)
    requires IsTree(t, e) && n == t.top
    ensures s == if e.Not? then None else FirstSym(e)
  {
    if n.typ == TSymbol || n.typ == TComp(EQ) || n.typ == TComp(NE) {
      return Some(n.left.sym);
    }
    return None;
  }

  method FirstSymbol(n: Node, ghost t: Shape, ghost e: Expr) returns (s: Option<Sym>)
    requires IsTree(t, e) && n == t.top
    ensures s == FirstSym(e)
  {
    if n.typ == TNot {
      s := SymbolAt(n.left.node, t.arg, e.arg);
    } else {
      s := SymbolAt(n, t, e);
    }
  }

  method SecondSymbol(n: Node, ghost t: Shape, ghost e: Expr) returns (s: Option<Sym>)
    requires IsTree(t, e) && n == t.top
    ensures s == SecondSym(e)
  {
    if n.typ == TNot {
      if n.left.node.typ != TSymbol {
        return None;
      }
      return Some(n.left.node.left.sym);
    }
    s := SymbolAt(n, t, e);
  }

  method NegatesSymbol(n: Node, ghost t: Shape, ghost e: Expr) returns (b: bool)
    requires IsTree(t, e) && n == t.top
    ensures b == IsNotSymbol(e)
  {
    if n.typ == TNot {
      return n.left.node.typ == TSymbol;
    }
    return false;
  }

  // expr_alloc_symbol and expr_alloc_comp
  method AllocLeaf(e: Expr) returns (n: Node, ghost t: Shape)
    requires e.Symbol? || e.Comp?
    ensures IsTree(t, e) && n == t.top && fresh(t.nodes)
  {
    if e.Symbol? {
      n := new Node(TSymbol, OfSym(e.sym), Null);
    } else {
      n := new Node(TComp(e.rel), OfSym(e.lhs), OfSym(e.rhs));
    }
    t := One(n);
  }

  // The node j, with the tree t, is the result r.
  ghost predicate IsResult(j: Option<Node>, t: Shape, r: ExprPtr)
    reads t.nodes
  {
    (j.Some? <==> r.Some?) && (j.Some? ==> IsTree(t, r.value) && j.value == t.top)
  }

  /** The rules of expr_join_or for operands that are not equal. */
  method JoinOrNodes(n1: Node, n2: Node, ghost t1: Shape, ghost t2: Shape, ghost e1: Expr, ghost e2: Expr)
    returns (j: Option<Node>, ghost t: Shape)
    requires IsTree(t1, e1) && IsTree(t2, e2) && n1 == t1.top && n2 == t2.top && !Equal(e1, e2)
    ensures IsResult(j, t, JoinOr(e1, e2)) && (j.Some? ==> fresh(t.nodes))
  {
    hide Equal, IsTree;
    j, t := None, t1;
    var s1 := FirstSymbol(n1, t1, e1);
    var s2 := SecondSymbol(n2, t2, e2);
    if s1.None? || s1 != s2 {
      return;
    }
    FieldsAgree(t1, t2, e1, e2);
    TestsAgree(t1, e1);
    TestsAgree(t2, e2);
    var s, n := s1.value, n1;
    if s.Type().Tristate? {
      if NodePair(n1, n2, EQ, SymYes, SymMod) {
        n, t := AllocLeaf(Comp(NE, s, SymNo));
        return Some(n), t;
      }
      if NodePair(n1, n2, EQ, SymYes, SymNo) {
        n, t := AllocLeaf(Comp(NE, s, SymMod));
        return Some(n), t;
      }
      if NodePair(n1, n2, EQ, SymMod, SymNo) {
        n, t := AllocLeaf(Comp(NE, s, SymYes));
        return Some(n), t;
      }
    }
    if s.Type().Boolean? {
      var not1 := NegatesSymbol(n1, t1, e1);
      var not2 := NegatesSymbol(n2, t2, e2);
      if (not1 && n2.typ == TSymbol) || (not2 && n1.typ == TSymbol) {
        n, t := AllocLeaf(YES_EXPR);
        return Some(n), t;
      }
    }
  }

  // (a = b) && (a != c), with b and c constant: at n1 and n2.
  method JoinConstNodes(s: Sym, n1: Node, n2: Node) returns (n: Node, ghost t: Shape)
    requires NodeConstTests(n1, n2)
    ensures IsTree(t, JoinConstTests(s, n1.right.sym, n2.right.sym)) && n == t.top && fresh(t.nodes)
  {
    if n1.right.sym != n2.right.sym {
      n, t := AllocLeaf(Comp(EQ, s, n1.right.sym));
    } else {
      n, t := AllocLeaf(NO_EXPR);
    }
  }

  /** Those of expr_join_and. */
  method JoinAndNodes(n1: Node, n2: Node, ghost t1: Shape, ghost t2: Shape, ghost e1: Expr, ghost e2: Expr)
    returns (j: Option<Node>, ghost t: Shape)
    requires IsTree(t1, e1) && IsTree(t2, e2) && n1 == t1.top && n2 == t2.top && !Equal(e1, e2)
    ensures IsResult(j, t, JoinAnd(e1, e2)) && (j.Some? ==> fresh(t.nodes))
  {
    hide Equal, IsTree;
    j, t := None, t1;
    var s1 := FirstSymbol(n1, t1, e1);
    var s2 := SecondSymbol(n2, t2, e2);
    if s1.None? || s1 != s2 || !s1.value.IsLogical() {
      return;
    }
    FieldsAgree(t1, t2, e1, e2);
    var s, n := s1.value, n1;
    if NodeSymbolAndTest(n1, n2, EQ, SymYes) {
      n, t := AllocLeaf(Comp(EQ, s, SymYes));
      return Some(n), t;
    }
    if NodeSymbolAndTest(n1, n2, NE, SymNo) {
      n, t := AllocLeaf(Symbol(s));
      return Some(n), t;
    }
    if NodeSymbolAndTest(n1, n2, NE, SymMod) {
      n, t := AllocLeaf(Comp(EQ, s, SymYes));
      return Some(n), t;
    }
    if s.Type().Tristate? {
      if NodeConstTests(n1, n2) {
        n, t := JoinConstNodes(s, n1, n2);
        return Some(n), t;
      }
      if NodeConstTests(n2, n1) {
        n, t := JoinConstNodes(s, n2, n1);
        return Some(n), t;
      }
      if NodePair(n1, n2, NE, SymYes, SymNo) {
        n, t := AllocLeaf(Comp(EQ, s, SymMod));
        return Some(n), t;
      }
      if NodePair(n1, n2, NE, SymYes, SymMod) {
        n, t := AllocLeaf(Comp(EQ, s, SymNo));
        return Some(n), t;
      }
      if NodePair(n1, n2, NE, SymMod, SymNo) {
        n, t := AllocLeaf(Comp(EQ, s, SymYes));
        return Some(n), t;
      }
    }
  }
}
