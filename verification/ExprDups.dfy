/** expr_eliminate_dups: joining operands in place, with both `struct expr **`
    arguments pointing into the same tree.

    A pointer to a link of the tree is the path to it from the tree's root. Two
    paths in one tree are equal exactly when the nodes they lead to are. */
module ExprDups {
  import opened Options
  import opened Exprs
  import opened ExprSimplify
  import opened ExprEq
  import opened ExprJoin

  datatype Side = L | R

  type Path = seq<Side>

  // p leads from e through nodes of operator op only.
  predicate OnSpine(op: Op, e: Expr, p: Path) {
    p == [] || (HasOp(e, op) && OnSpine(op, Child(e, p[0]), p[1..]))
  }

  function Child(e: Expr, s: Side): Expr
    requires e.Bin?
  {
    if s.L? then e.left else e.right
  }

  function At(op: Op, e: Expr, p: Path): Expr
    requires OnSpine(op, e, p)
  {
    if p == [] then e else At(op, Child(e, p[0]), p[1..])
  }

  function Put(op: Op, e: Expr, p: Path, x: Expr): Expr
    requires OnSpine(op, e, p)
  {
    if p == [] then x
    else if p[0].L? then Bin(e.op, Put(op, e.left, p[1..], x), e.right)
    else Bin(e.op, e.left, Put(op, e.right, p[1..], x))
  }

  // p leads to an operand of e, seen as one level of operator op.
  predicate IsOperand(op: Op, e: Expr, p: Path) {
    OnSpine(op, e, p) && !HasOp(At(op, e, p), op)
  }

  function SpineSize(op: Op, e: Expr): nat {
    if HasOp(e, op) then 1 + SpineSize(op, e.left) + SpineSize(op, e.right) else 0
  }

  // Only operands differ: the operator nodes of the level are the same.
  predicate SameSpine(op: Op, e: Expr, x: Expr) {
    HasOp(e, op) == HasOp(x, op) &&
    (HasOp(e, op) ==> SameSpine(op, e.left, x.left) && SameSpine(op, e.right, x.right))
  }

  // ---------- reading and writing through paths ----------

  lemma {:induction false} AtExtend(op: Op, e: Expr, p: Path, s: Side)
    requires OnSpine(op, e, p) && HasOp(At(op, e, p), op)
    ensures OnSpine(op, e, p + [s]) && At(op, e, p + [s]) == Child(At(op, e, p), s)
  {
    if p == [] {
      assert (p + [s])[1..] == [];
    } else {
      AtExtend(op, Child(e, p[0]), p[1..], s);
      assert (p + [s])[1..] == p[1..] + [s];
    }
  }

  lemma {:induction false} SameSpineAt(op: Op, e: Expr, x: Expr, p: Path)
    requires SameSpine(op, e, x) && OnSpine(op, e, p)
    ensures OnSpine(op, x, p) && SameSpine(op, At(op, e, p), At(op, x, p))
  {
    if p != [] {
      SameSpineAt(op, Child(e, p[0]), Child(x, p[0]), p[1..]);
    }
  }

  lemma {:induction false} SameSpineSize(op: Op, e: Expr, x: Expr)
    requires SameSpine(op, e, x)
    ensures SpineSize(op, e) == SpineSize(op, x)
  {
    if HasOp(e, op) {
      SameSpineSize(op, e.left, x.left);
      SameSpineSize(op, e.right, x.right);
    }
  }

  lemma {:induction false} SameSpineTransitive(op: Op, a: Expr, b: Expr, c: Expr)
    requires SameSpine(op, a, b) && SameSpine(op, b, c)
    ensures SameSpine(op, a, c)
  {
    if HasOp(a, op) {
      SameSpineTransitive(op, a.left, b.left, c.left);
      SameSpineTransitive(op, a.right, b.right, c.right);
    }
  }

  lemma {:induction false} SameSpineReflexive(op: Op, e: Expr)
    ensures SameSpine(op, e, e)
  {
    if HasOp(e, op) {
      SameSpineReflexive(op, e.left);
      SameSpineReflexive(op, e.right);
    }
  }

  /** Writing an operand keeps the spine and changes the size by the difference. */
  lemma {:induction false} PutOperand(op: Op, e: Expr, p: Path, x: Expr)
    requires IsOperand(op, e, p) && !HasOp(x, op)
    ensures SameSpine(op, e, Put(op, e, p, x))
    ensures IsOperand(op, Put(op, e, p, x), p) && At(op, Put(op, e, p, x), p) == x
    ensures Size(Put(op, e, p, x)) == Size(e) - Size(At(op, e, p)) + Size(x)
  {
    if p != [] {
      PutOperand(op, Child(e, p[0]), p[1..], x);
      SameSpineReflexive(op, e.left);
      SameSpineReflexive(op, e.right);
    }
  }

  lemma {:induction false} PutSame(op: Op, e: Expr, p: Path)
    requires OnSpine(op, e, p)
    ensures Put(op, e, p, At(op, e, p)) == e
  {
    if p != [] {
      PutSame(op, Child(e, p[0]), p[1..]);
    }
  }

  /** Writing one operand does not touch another. */
  lemma {:induction false} PutElsewhere(op: Op, e: Expr, p: Path, q: Path, x: Expr)
    requires IsOperand(op, e, p) && IsOperand(op, e, q) && p != q && !HasOp(x, op)
    ensures IsOperand(op, Put(op, e, p, x), q)
    ensures At(op, Put(op, e, p, x), q) == At(op, e, q)
  {
    if p != [] && q != [] && p[0] == q[0] {
      PutElsewhere(op, Child(e, p[0]), p[1..], q[1..], x);
    }
  }

  lemma {:induction false} OperandIsSmaller(op: Op, e: Expr, p: Path)
    requires OnSpine(op, e, p)
    ensures p != [] ==> Size(At(op, e, p)) < Size(e)
  {
    if p != [] {
      OperandIsSmaller(op, Child(e, p[0]), p[1..]);
    }
  }

  lemma ApplyAssociates(op: Op, a: Tri, b: Tri, c: Tri)
    ensures Apply(op, Apply(op, a, b), c) == Apply(op, a, Apply(op, b, c))
    ensures Apply(op, c, Apply(op, a, b)) == Apply(op, a, Apply(op, c, b))
  {}

  /** The value of a level is that of one operand combined with the rest. */
  lemma {:induction false} ValueAt(op: Op, e: Expr, p: Path, x: Expr, v: Valuation)
    requires Consistent(v) && OnSpine(op, e, p)
    ensures Eval(Put(op, e, p, x), v) == Apply(op, Eval(x, v), Eval(Put(op, e, p, Unit(op)), v))
  {
    if p != [] {
      var c, rest := Child(e, p[0]), p[1..];
      ValueAt(op, c, rest, x, v);
      var l := Eval(Put(op, c, rest, Unit(op)), v);
      if p[0].L? {
        ApplyAssociates(op, Eval(x, v), l, Eval(e.right, v));
      } else {
        ApplyAssociates(op, Eval(x, v), l, Eval(e.left, v));
      }
    }
  }

  // ---------- expr_eliminate_dups1 ----------

  // What remains to be visited; the second part falls along the spines.
  function Joined(op: Op, e: Expr, p1: Path, p2: Path, x: Expr): (r: Expr)
    requires IsOperand(op, e, p1) && IsOperand(op, e, p2) && p1 != p2 && !HasOp(x, op)
    ensures SameSpine(op, e, r)
    ensures Size(r) == Size(e) - Size(At(op, e, p1)) - Size(At(op, e, p2)) + 1 + Size(x)
  {
    var u := Put(op, e, p1, Unit(op));
    PutOperand(op, e, p1, Unit(op));
    PutElsewhere(op, e, p1, p2, Unit(op));
    PutOperand(op, u, p2, x);
    var r := Put(op, u, p2, x);
    SameSpineTransitive(op, e, u, r);
    r
  }

  /** The tree after expr_eliminate_dups1(op, &e[p1], &e[p2]) and the number of
      operands it joined. */
  function Dups1(op: Op, e: Expr, p1: Path, p2: Path): (r: (Expr, nat))
    requires OnSpine(op, e, p1) && OnSpine(op, e, p2)
    ensures SameSpine(op, e, r.0) && Size(r.0) <= Size(e)
    decreases Size(e), 1 + SpineSize(op, At(op, e, p1)) + SpineSize(op, At(op, e, p2))
  {
    if HasOp(At(op, e, p1), op) then
      AtExtend(op, e, p1, L);
      AtExtend(op, e, p1, R);
      var first := Dups1(op, e, p1 + [L], p2);
      AfterFirst(op, e, first.0, p1 + [R], p2);
      var second := Dups1(op, first.0, p1 + [R], p2);
      SameSpineTransitive(op, e, first.0, second.0);
      (second.0, first.1 + second.1)
    else if HasOp(At(op, e, p2), op) then
      AtExtend(op, e, p2, L);
      AtExtend(op, e, p2, R);
      var first := Dups1(op, e, p1, p2 + [L]);
      AfterFirst(op, e, first.0, p1, p2 + [R]);
      var second := Dups1(op, first.0, p1, p2 + [R]);
      SameSpineTransitive(op, e, first.0, second.0);
      (second.0, first.1 + second.1)
    else if p1 == p2 then
      SameSpineReflexive(op, e);
      (e, 0)
    else
      var inner := DupsInside(op, e, p1);
      var (a, t) := (inner.0, inner.1);
      PutElsewhere(op, e, p1, p2, a);
      var b := At(op, t, p2);
      var j := Join(op, a, b);
      if j.None? then (t, inner.2)
      else
        JoinIsSmall(op, a, b);
        var x := Joined(op, t, p1, p2, j.value);
        SameSpineTransitive(op, e, t, x);
        (x, inner.2 + 1)
  }

  // One after the other for the operands of an operator.
  lemma FirstOfDups1(op: Op, e: Expr, p1: Path, p2: Path)
    requires OnSpine(op, e, p1) && OnSpine(op, e, p2) && HasOp(At(op, e, p1), op)
    requires OnSpine(op, e, p1 + [L]) && OnSpine(op, Dups1(op, e, p1 + [L], p2).0, p1 + [R])
    requires OnSpine(op, Dups1(op, e, p1 + [L], p2).0, p2)
    ensures var first := Dups1(op, e, p1 + [L], p2); var second := Dups1(op, first.0, p1 + [R], p2);
      Dups1(op, e, p1, p2) == (second.0, first.1 + second.1)
  {
    hide At, OnSpine, SpineSize, SameSpine, Join, Joined, DupsInside;
  }

  lemma SecondOfDups1(op: Op, e: Expr, p1: Path, p2: Path)
    requires OnSpine(op, e, p1) && OnSpine(op, e, p2) && !HasOp(At(op, e, p1), op) && HasOp(At(op, e, p2), op)
    requires OnSpine(op, e, p2 + [L]) && OnSpine(op, Dups1(op, e, p1, p2 + [L]).0, p2 + [R])
    requires OnSpine(op, Dups1(op, e, p1, p2 + [L]).0, p1)
    ensures var first := Dups1(op, e, p1, p2 + [L]); var second := Dups1(op, first.0, p1, p2 + [R]);
      Dups1(op, e, p1, p2) == (second.0, first.1 + second.1)
  {
    hide At, OnSpine, SpineSize, SameSpine, Join, Joined, DupsInside;
  }

  /** The nested call on an operand that is itself && or ||: the operand after
      it, the tree with it written back, and the number of joins. */
  function DupsInside(op: Op, e: Expr, p: Path): (r: (Expr, Expr, nat))
    requires IsOperand(op, e, p) && p != []
    ensures !HasOp(r.0, op) && r.1 == Put(op, e, p, r.0)
    ensures IsOperand(op, r.1, p) && At(op, r.1, p) == r.0
    ensures SameSpine(op, e, r.1) && Size(r.1) <= Size(e)
    decreases Size(e), 0
  {
    var a := At(op, e, p);
    OperandIsSmaller(op, e, p);
    var inner := if a.Bin? then Dups1(a.op, a, [], []) else (a, 0);
    PutOperand(op, e, p, inner.0);
    (inner.0, Put(op, e, p, inner.0), inner.1)
  }

  lemma AfterFirst(op: Op, e: Expr, x: Expr, p1: Path, p2: Path)
    requires SameSpine(op, e, x) && OnSpine(op, e, p1) && OnSpine(op, e, p2)
    ensures OnSpine(op, x, p1) && OnSpine(op, x, p2)
    ensures SpineSize(op, At(op, x, p1)) == SpineSize(op, At(op, e, p1))
    ensures SpineSize(op, At(op, x, p2)) == SpineSize(op, At(op, e, p2))
  {
    SameSpineAt(op, e, x, p1);
    SameSpineAt(op, e, x, p2);
    SameSpineSize(op, At(op, e, p1), At(op, x, p1));
    SameSpineSize(op, At(op, e, p2), At(op, x, p2));
  }

  // ---------- the value is kept ----------

  lemma {:induction false} PutKeepsTidy(op: Op, e: Expr, p: Path, x: Expr, form: Form)
    requires OnSpine(op, e, p) && IsTidy(e, form)
    ensures IsTidy(At(op, e, p), form)
    ensures IsTidy(x, form) ==> IsTidy(Put(op, e, p, x), form)
  {
    if p != [] {
      PutKeepsTidy(op, Child(e, p[0]), p[1..], x, form);
    }
  }

  lemma JoinedKeepsValue(op: Op, e: Expr, p1: Path, p2: Path, v: Valuation, form: Form)
    requires IsOperand(op, e, p1) && IsOperand(op, e, p2) && p1 != p2
    requires Consistent(v) && Reads(v, form.parse) && IsTidy(e, form)
    requires Join(op, At(op, e, p1), At(op, e, p2)).Some?
    ensures var j := Join(op, At(op, e, p1), At(op, e, p2)).value;
      && !HasOp(j, op)
      && Eval(Joined(op, e, p1, p2, j), v) == Eval(e, v)
      && IsTidy(Joined(op, e, p1, p2, j), form)
  {
    var a, b := At(op, e, p1), At(op, e, p2);
    PutKeepsTidy(op, e, p1, Unit(op), form);
    PutKeepsTidy(op, e, p2, Unit(op), form);
    JoinIsSmall(op, a, b);
    JoinKeepsValue(op, a, b, v, form.parse);
    JoinKeepsTidy(op, a, b, form);
    var j := Join(op, a, b).value;
    var u := Put(op, e, p1, Unit(op));
    PutElsewhere(op, e, p1, p2, Unit(op));
    PutKeepsTidy(op, u, p2, j, form);
    ValueAt(op, e, p1, a, v);
    PutSame(op, e, p1);
    ValueAt(op, u, p2, b, v);
    PutSame(op, u, p2);
    ValueAt(op, u, p2, j, v);
    ApplyAssociates(op, Eval(a, v), Eval(b, v), Eval(Put(op, u, p2, Unit(op)), v));
  }

  /** Every pass keeps the value of every expression with safe tests. */
  lemma {:induction false} Dups1KeepsValue(op: Op, e: Expr, p1: Path, p2: Path, v: Valuation, form: Form)
    requires OnSpine(op, e, p1) && OnSpine(op, e, p2)
    requires Consistent(v) && Reads(v, form.parse) && IsTidy(e, form)
    ensures Eval(Dups1(op, e, p1, p2).0, v) == Eval(e, v)
    ensures IsTidy(Dups1(op, e, p1, p2).0, form)
    decreases Size(e), 1 + SpineSize(op, At(op, e, p1)) + SpineSize(op, At(op, e, p2))
  {
    hide Consistent, Reads, IsTidy, Eval, Join;
    if HasOp(At(op, e, p1), op) {
      AtExtend(op, e, p1, L);
      AtExtend(op, e, p1, R);
      var first := Dups1(op, e, p1 + [L], p2);
      AfterFirst(op, e, first.0, p1 + [R], p2);
      Dups1KeepsValue(op, e, p1 + [L], p2, v, form);
      Dups1KeepsValue(op, first.0, p1 + [R], p2, v, form);
    } else if HasOp(At(op, e, p2), op) {
      AtExtend(op, e, p2, L);
      AtExtend(op, e, p2, R);
      var first := Dups1(op, e, p1, p2 + [L]);
      AfterFirst(op, e, first.0, p1, p2 + [R]);
      Dups1KeepsValue(op, e, p1, p2 + [L], v, form);
      Dups1KeepsValue(op, first.0, p1, p2 + [R], v, form);
    } else if p1 != p2 {
      InsideKeepsValue(op, e, p1, v, form);
      LeavesKeepValue(op, e, p1, p2, v, form);
    }
  }

  lemma LeavesKeepValue(op: Op, e: Expr, p1: Path, p2: Path, v: Valuation, form: Form)
    requires IsOperand(op, e, p1) && IsOperand(op, e, p2) && p1 != p2
    requires Consistent(v) && Reads(v, form.parse) && IsTidy(DupsInside(op, e, p1).1, form)
    ensures Eval(Dups1(op, e, p1, p2).0, v) == Eval(DupsInside(op, e, p1).1, v)
    ensures IsTidy(Dups1(op, e, p1, p2).0, form)
  {
    var inner := DupsInside(op, e, p1);
    PutElsewhere(op, e, p1, p2, inner.0);
    if Join(op, inner.0, At(op, inner.1, p2)).Some? {
      JoinedKeepsValue(op, inner.1, p1, p2, v, form);
    }
  }

  lemma {:induction false} InsideKeepsValue(op: Op, e: Expr, p: Path, v: Valuation, form: Form)
    requires IsOperand(op, e, p) && p != []
    requires Consistent(v) && Reads(v, form.parse) && IsTidy(e, form)
    ensures Eval(DupsInside(op, e, p).1, v) == Eval(e, v)
    ensures IsTidy(DupsInside(op, e, p).1, form)
    decreases Size(e), 0
  {
    var a := At(op, e, p);
    OperandIsSmaller(op, e, p);
    PutKeepsTidy(op, e, p, DupsInside(op, e, p).0, form);
    if a.Bin? {
      Dups1KeepsValue(a.op, a, [], [], v, form);
    }
    ValueAt(op, e, p, a, v);
    PutSame(op, e, p);
    ValueAt(op, e, p, DupsInside(op, e, p).0, v);
  }

  // ---------- progress ----------

  // A pass that joins something leaves an operand y or n behind, and one that
  // joins nothing leaves the tree alone.
  predicate Progress(e: Expr, x: Expr, joins: nat) {
    && (HasYnOperand(e) || joins > 0 ==> HasYnOperand(x))
    && (joins == 0 ==> x == e)
  }

  lemma {:induction false} PutKeepsYn(op: Op, e: Expr, p: Path, x: Expr)
    requires OnSpine(op, e, p)
    requires IsYn(At(op, e, p)) ==> IsYn(x)
    requires HasYnOperand(At(op, e, p)) ==> HasYnOperand(x)
    ensures HasYnOperand(e) ==> HasYnOperand(Put(op, e, p, x))
    ensures p != [] && (IsYn(x) || HasYnOperand(x)) ==> HasYnOperand(Put(op, e, p, x))
  {
    if p != [] {
      var c := Child(e, p[0]);
      PutKeepsYn(op, c, p[1..], x);
      if p == [p[0]] {
        assert Put(op, c, p[1..], x) == x && At(op, c, p[1..]) == c;
      } else {
        assert c.Bin? && Put(op, c, p[1..], x).Bin?;
      }
    }
  }

  lemma {:induction false} YnOperandShows(op: Op, e: Expr, p: Path)
    requires OnSpine(op, e, p) && p != [] && IsYn(At(op, e, p))
    ensures HasYnOperand(e)
  {
    PutKeepsYn(op, e, p, At(op, e, p));
    PutSame(op, e, p);
  }

  lemma JoinedLeavesYn(op: Op, e: Expr, p1: Path, p2: Path, x: Expr)
    requires IsOperand(op, e, p1) && IsOperand(op, e, p2) && p1 != p2 && !HasOp(x, op)
    ensures HasYnOperand(Joined(op, e, p1, p2, x))
  {
    var u := Put(op, e, p1, Unit(op));
    PutOperand(op, e, p1, Unit(op));
    PutElsewhere(op, e, p1, p2, Unit(op));
    PutOperand(op, u, p2, x);
    PutElsewhere(op, u, p2, p1, x);
    YnOperandShows(op, Put(op, u, p2, x), p1);
  }

  lemma {:induction false} Dups1Progress(op: Op, e: Expr, p1: Path, p2: Path)
    requires OnSpine(op, e, p1) && OnSpine(op, e, p2)
    ensures var r := Dups1(op, e, p1, p2); Progress(e, r.0, r.1)
    decreases Size(e), 1 + SpineSize(op, At(op, e, p1)) + SpineSize(op, At(op, e, p2))
  {
    hide Join;
    if HasOp(At(op, e, p1), op) {
      AtExtend(op, e, p1, L);
      AtExtend(op, e, p1, R);
      var first := Dups1(op, e, p1 + [L], p2);
      AfterFirst(op, e, first.0, p1 + [R], p2);
      Dups1Progress(op, e, p1 + [L], p2);
      Dups1Progress(op, first.0, p1 + [R], p2);
    } else if HasOp(At(op, e, p2), op) {
      AtExtend(op, e, p2, L);
      AtExtend(op, e, p2, R);
      var first := Dups1(op, e, p1, p2 + [L]);
      AfterFirst(op, e, first.0, p1, p2 + [R]);
      Dups1Progress(op, e, p1, p2 + [L]);
      Dups1Progress(op, first.0, p1, p2 + [R]);
    } else if p1 != p2 {
      var inner := DupsInside(op, e, p1);
      InsideProgress(op, e, p1);
      PutElsewhere(op, e, p1, p2, inner.0);
      var j := Join(op, inner.0, At(op, inner.1, p2));
      if j.Some? {
        JoinIsSmall(op, inner.0, At(op, inner.1, p2));
        JoinedLeavesYn(op, inner.1, p1, p2, j.value);
      }
    }
  }

  lemma {:induction false} InsideProgress(op: Op, e: Expr, p: Path)
    requires IsOperand(op, e, p) && p != []
    ensures var r := DupsInside(op, e, p); Progress(e, r.1, r.2)
    decreases Size(e), 0
  {
    var a := At(op, e, p);
    OperandIsSmaller(op, e, p);
    if a.Bin? {
      Dups1Progress(a.op, a, [], []);
    }
    PutKeepsYn(op, e, p, DupsInside(op, e, p).0);
    PutSame(op, e, p);
  }

  // ---------- expr_eliminate_dups ----------

  // One round of the loop: a pass over the whole tree.
  function DupsPass(e: Expr): (r: (Expr, nat))
    ensures Size(r.0) <= Size(e)
  {
    if e.Bin? then Dups1(e.op, e, [], []) else (e, 0)
  }

  lemma PassProgress(e: Expr)
    ensures var r := DupsPass(e);
      && Progress(e, r.0, r.1)
      && (r.1 > 0 ==> Size(EliminateYn(r.0)) < Size(e))
  {
    if e.Bin? {
      Dups1Progress(e.op, e, [], []);
    }
    EliminateYnRemoves(DupsPass(e).0);
  }

  /** The tree expr_eliminate_dups returns: its loop ends because a round that
      joins anything makes the tree smaller. */
  function EliminateDups(e: Expr): Expr
    decreases Size(e)
  {
    var (t, joins) := DupsPass(e);
    PassProgress(e);
    if joins == 0 then e else EliminateDups(EliminateYn(t))
  }

  function EliminateDupsPtr(e: ExprPtr): ExprPtr {
    if e.None? then None else Some(EliminateDups(e.value))
  }

  lemma {:induction false} EliminateYnKeepsTidy(e: Expr, form: Form)
    requires IsTidy(e, form)
    ensures IsTidy(EliminateYn(e), form)
  {
    if e.Bin? {
      EliminateYnKeepsTidy(e.left, form);
      EliminateYnKeepsTidy(e.right, form);
    }
  }

  /** The result has the value of the tree it replaces, and is as tidy. */
  lemma {:induction false} EliminateDupsKeepsValue(e: Expr, v: Valuation, form: Form)
    requires Consistent(v) && Reads(v, form.parse) && IsTidy(e, form)
    ensures Eval(EliminateDups(e), v) == Eval(e, v)
    ensures IsTidy(EliminateDups(e), form)
    decreases Size(e)
  {
    var (t, joins) := DupsPass(e);
    PassProgress(e);
    if joins > 0 {
      Dups1KeepsValue(e.op, e, [], [], v, form);
      EliminateYnKeepsTidy(t, form);
      EliminateYnKeepsValue(t, v);
      EliminateDupsKeepsValue(EliminateYn(t), v, form);
    }
  }

  /** Nothing can be joined any more: a further call changes nothing. */
  lemma {:induction false} EliminateDupsIsIdempotent(e: Expr)
    ensures DupsPass(EliminateDups(e)).1 == 0
    ensures EliminateDups(EliminateDups(e)) == EliminateDups(e)
    ensures Size(EliminateDups(e)) <= Size(e)
    decreases Size(e)
  {
    var (t, joins) := DupsPass(e);
    PassProgress(e);
    if joins > 0 {
      EliminateDupsIsIdempotent(EliminateYn(t));
    }
  }

  // Where joining finds nothing to do.
  lemma LeavesAreKept(op: Op, e: Expr, p1: Path, p2: Path)
    requires IsOperand(op, e, p1) && IsOperand(op, e, p2) && p1 != p2
    requires DupsPass(At(op, e, p1)) == (At(op, e, p1), 0) && Join(op, At(op, e, p1), At(op, e, p2)).None?
    ensures Dups1(op, e, p1, p2) == (e, 0)
  {
    PutSame(op, e, p1);
  }

  lemma NothingToJoin(op: Op, a: Expr, b: Expr)
    requires !HasOp(a, op) && !HasOp(b, op) && Join(op, a, b).None? && Join(op, b, a).None?
    requires DupsPass(a) == (a, 0) && DupsPass(b) == (b, 0)
    ensures EliminateDups(Bin(op, a, b)) == Bin(op, a, b)
    ensures DupsPass(Bin(op, a, b)) == (Bin(op, a, b), 0)
  {
    hide Join, IsOperand;
    var e := Bin(op, a, b);
    OperandsOf(op, a, b);
    LeavesAreKept(op, e, [L], [R]);
    LeavesAreKept(op, e, [R], [L]);
    assert [] + [L] == [L] && [] + [R] == [R];
    assert Dups1(op, e, [L], [L]) == (e, 0) && Dups1(op, e, [R], [R]) == (e, 0);
    assert Dups1(op, e, [L], []) == (e, 0);
    assert Dups1(op, e, [R], []) == (e, 0);
    assert Dups1(op, e, [], []) == (e, 0);
  }

  // Two operands that join into one that goes no further.
  lemma OneJoin(op: Op, a: Expr, b: Expr, j: Expr)
    requires !HasOp(a, op) && !HasOp(b, op) && !HasOp(j, op) && DupsPass(a) == (a, 0) && DupsPass(j) == (j, 0)
    requires Join(op, a, b) == Some(j) && Join(op, j, Unit(op)).None?
    ensures DupsPass(Bin(op, a, b)) == (Bin(op, Unit(op), j), 1)
  {
    hide Join, IsOperand;
    var e, x := Bin(op, a, b), Bin(op, Unit(op), j);
    OperandsOf(op, a, b);
    OperandsOf(op, Unit(op), j);
    LeavesJoin(op, e, j);
    LeavesAreKept(op, x, [R], [L]);
    assert [] + [L] == [L] && [] + [R] == [R];
    assert Dups1(op, e, [L], [L]) == (e, 0) && Dups1(op, x, [R], [R]) == (x, 0);
    assert Dups1(op, e, [L], []) == (x, 1);
    assert Dups1(op, x, [R], []) == (x, 0);
    assert Dups1(op, e, [], []) == (x, 1);
  }

  lemma LeavesJoin(op: Op, e: Expr, j: Expr)
    requires IsOperand(op, e, [L]) && IsOperand(op, e, [R]) && HasOp(e, op) && !HasOp(j, op)
    requires DupsPass(e.left) == (e.left, 0) && Join(op, e.left, e.right) == Some(j)
    ensures Dups1(op, e, [L], [R]) == (Bin(op, Unit(op), j), 1)
  {
    PutSame(op, e, [L]);
    assert [L][1..] == [] && [R][1..] == [];
    assert At(op, e, [L]) == e.left && At(op, e, [R]) == e.right;
    assert DupsInside(op, e, [L]) == (e.left, e, 0);
    assert Put(op, e, [L], Unit(op)) == Bin(op, Unit(op), e.right);
    assert Put(op, Bin(op, Unit(op), e.right), [R], j) == Bin(op, Unit(op), j);
    assert Joined(op, e, [L], [R], j) == Bin(op, Unit(op), j);
  }

  lemma OperandsOf(op: Op, a: Expr, b: Expr)
    requires !HasOp(a, op) && !HasOp(b, op)
    ensures var e := Bin(op, a, b);
      IsOperand(op, e, [L]) && IsOperand(op, e, [R]) && At(op, e, [L]) == a && At(op, e, [R]) == b
  {}
}
