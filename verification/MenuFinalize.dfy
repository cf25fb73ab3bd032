/** The menu tree that menu_finalize works on, and menu_finalize itself. */
module MenuFinalize {
  import opened Options
  import opened Exprs
  import opened ExprSimplify
  import opened Kconfig
  import opened MenuConds
  import opened Submenus
  import opened MenuLinks
  import opened MenuMoves
  import opened Menus
  import opened MenuShape

  // The dependencies of the given definitions of s, put together by expr_alloc_or.
  function DirDepOf(e: Entries, c: Conds, defs: seq<Id>, s: Sym): ExprPtr {
    if defs == [] then None
    else
      var d, x := DirDepOf(e, c, defs[..|defs| - 1], s), defs[|defs| - 1];
      if x in e.sym && e.sym[x] == s then AllocOr(d, c.Dep(x)) else d
  }

  lemma {:induction false} DirDepFrame(e: Entries, c: Conds, d: Conds, defs: seq<Id>, s: Sym)
    requires forall x :: x in defs ==> c.Dep(x) == d.Dep(x)
    ensures DirDepOf(e, c, defs, s) == DirDepOf(e, d, defs, s)
  {
    if defs != [] {
      DirDepFrame(e, c, d, defs[..|defs| - 1], s);
    }
  }

  lemma DirDepExtend(e: Entries, c: Conds, defs: seq<Id>, p: Id, s: Sym)
    requires p in e.sym
    ensures DirDepOf(e, c, defs + [p], s)
         == (if e.sym[p] == s then AllocOr(DirDepOf(e, c, defs, s), c.Dep(p)) else DirDepOf(e, c, defs, s))
  {
    assert (defs + [p])[..|defs + [p]| - 1] == defs;
  }

  function Lookup(m: map<Sym, Expr>, s: Sym): ExprPtr { if s in m then Some(m[s]) else None }

  // A select or imply adds its condition to the target's reverse dependency.
  function AddReverse(m: map<Sym, Expr>, target: Sym, source: Sym, cond: ExprPtr): map<Sym, Expr> {
    m[target := AllocOr(Lookup(m, target), AllocAnd(Some(Symbol(source)), cond)).value]
  }

  function ReverseStep(e: Entries, m: map<Sym, Expr>, x: Id, p: PropId, cond: ExprPtr, kind: PropKind): map<Sym, Expr> {
    if e.Owns(x, p) && e.props[p].kind == kind && x in e.sym
    then AddReverse(m, e.props[p].target, e.sym[x], cond) else m
  }

  /** The reverse dependencies after the properties ps of node x, whose
      conditions are in c. */
  function Reversed(e: Entries, c: Conds, m: map<Sym, Expr>, x: Id, ps: seq<PropId>, kind: PropKind): map<Sym, Expr> {
    if ps == [] then m
    else
      var p := ps[|ps| - 1];
      ReverseStep(e, Reversed(e, c, m, x, ps[..|ps| - 1], kind), x, p, c.Visible(p), kind)
  }

  lemma {:induction false} ReversedFrame(e: Entries, c: Conds, d: Conds, m: map<Sym, Expr>, x: Id,
                                         ps: seq<PropId>, kind: PropKind)
    requires forall p :: p in ps && e.Owns(x, p) ==> c.Visible(p) == d.Visible(p)
    ensures Reversed(e, c, m, x, ps, kind) == Reversed(e, d, m, x, ps, kind)
  {
    if ps != [] {
      ReversedFrame(e, c, d, m, x, ps[..|ps| - 1], kind);
    }
  }

  lemma ReversedExtend(e: Entries, c: Conds, d: Conds, m: map<Sym, Expr>, x: Id,
                       ps: seq<PropId>, i: nat, kind: PropKind)
    requires i < |ps| && NoDup(ps)
    requires forall p :: p != ps[i] ==> c.Visible(p) == d.Visible(p)
    ensures Reversed(e, d, m, x, ps[..i + 1], kind)
         == ReverseStep(e, Reversed(e, c, m, x, ps[..i], kind), x, ps[i], d.Visible(ps[i]), kind)
  {
    assert ps[..i + 1][..i] == ps[..i];
    ReversedFrame(e, c, d, m, x, ps[..i], kind);
  }

  /** The reverse dependencies after the nodes in `order`. */
  function ReversedBy(e: Entries, c: Conds, order: seq<Id>, kind: PropKind): map<Sym, Expr> {
    if order == [] then map[]
    else
      var x := order[|order| - 1];
      Reversed(e, c, ReversedBy(e, c, order[..|order| - 1], kind), x, e.PropsOf(x), kind)
  }

  lemma {:induction false} ReversedByFrame(e: Entries, c: Conds, d: Conds, order: seq<Id>, kind: PropKind)
    requires forall x, p :: x in order && e.Owns(x, p) ==> c.Visible(p) == d.Visible(p)
    ensures ReversedBy(e, c, order, kind) == ReversedBy(e, d, order, kind)
  {
    if order != [] {
      var n := |order| - 1;
      ReversedByFrame(e, c, d, order[..n], kind);
      ReversedFrame(e, c, d, ReversedBy(e, c, order[..n], kind), order[n], e.PropsOf(order[n]), kind);
    }
  }

  lemma ReversedByExtend(e: Entries, c: Conds, d: Conds, order: seq<Id>, x: Id, kind: PropKind)
    requires x !in order && CondsOnlyAt(e, c, d, {x})
    ensures ReversedBy(e, d, order + [x], kind)
         == Reversed(e, d, ReversedBy(e, c, order, kind), x, e.PropsOf(x), kind)
  {
    assert (order + [x])[..|order + [x]| - 1] == order;
    forall y, p | y in order && e.Owns(y, p) ensures c.Visible(p) == d.Visible(p) {
      assert SameCond(e, c, d, y);
    }
    ReversedByFrame(e, c, d, order, kind);
  }

  // The definitions entered and the nodes settled.
  datatype Marks = Marks(defs: set<Id>, settled: set<Id>)

  // The conditions after the properties ps of node x are rewritten.
  function PropsDone(r: Rules, e: Entries, c: Conds, x: Id, ps: seq<PropId>): Conds {
    if ps == [] then c
    else
      var d, p := PropsDone(r, e, c, x, ps[..|ps| - 1]), ps[|ps| - 1];
      if e.Owns(x, p) then d.WithVisible(p, r.prop(c.Dep(x), d.Visible(p), e.Relaxes(x))) else d
  }

  lemma {:induction false} PropsDoneMeans(r: Rules, e: Entries, c: Conds, x: Id, ps: seq<PropId>)
    requires NoDup(ps)
    ensures var d := PropsDone(r, e, c, x, ps);
      && d.dep == c.dep
      && forall p :: d.Visible(p) ==
           if p in ps && e.Owns(x, p) then r.prop(c.Dep(x), c.Visible(p), e.Relaxes(x)) else c.Visible(p)
  {
    if ps != [] {
      var n := |ps| - 1;
      PropsDoneMeans(r, e, c, x, ps[..n]);
      assert ps == ps[..n] + [ps[n]] && ps[n] !in ps[..n];
      hide Entries.Owns, Entries.Relaxes, NoDup;
      WithVisibleMeans(PropsDone(r, e, c, x, ps[..n]), ps[n],
                       r.prop(c.Dep(x), c.Visible(ps[n]), e.Relaxes(x)));
    }
  }

  lemma WithVisibleMeans(c: Conds, p: PropId, y: ExprPtr)
    ensures var d := c.WithVisible(p, y);
      d.dep == c.dep && forall q :: d.Visible(q) == if q == p then y else c.Visible(q)
  {}

  class MenuTree {
    const e: Entries
    var links: Links
    var conds: Conds
    var dirDep: map<Sym, Expr>
    var revDep: map<Sym, Expr>
    var implied: map<Sym, Expr>

    ghost const r: Rules       // the rewriting rules of expr.c
    ghost const parsed: Conds  // the conditions before anything is finalized
    ghost var log: seq<Id>     // the nodes menu_finalize was called on, in order
    ghost var defs: seq<Id>    // the definitions entered into dirDep, in order
    ghost var order: seq<Id>   // the nodes whose conditions were propagated, in order

    constructor (e: Entries, links: Links, conds: Conds)
      ensures this.e == e && this.links == links && this.conds == conds && parsed == conds && r == RulesOf(e)
      ensures dirDep == map[] && revDep == map[] && implied == map[] && log == []
      ensures defs == [] && order == []
    {
      this.e, this.links, this.conds, this.parsed, this.r := e, links, conds, conds, RulesOf(e);
      dirDep, revDep, implied, log, defs, order := map[], map[], map[], [], [], [];
    }

    ghost predicate Valid() { e.Valid() && AreRules(r, e) }

    /** The entered definitions, and the selects and implies of the settled nodes,
        count, and nothing else. */
    ghost predicate Entered()
      reads this`conds, this`defs, this`dirDep, this`order, this`revDep, this`implied
    {
      && NoDup(defs) && (forall s :: Lookup(dirDep, s) == DirDepOf(e, conds, defs, s))
      && NoDup(order)
      && revDep == ReversedBy(e, conds, order, PSelect) && implied == ReversedBy(e, conds, order, PImply)
    }

    ghost function Done(): Marks
      reads this`defs, this`order
    {
      Marks(Elems(defs), Elems(order))
    }

    // The trees ts are as parsed, except for the conditions of their tops.
    ghost predicate Unfinished(ts: seq<Tree>, par: Option<Id>)
      reads this`links, this`conds, this`defs, this`order
    {
      && Chain(links, ts, par, None)
      && Distinct(ts)
      && SymbolsAreLeaves(e, ts)
      && (forall x :: x in Inner(ts) ==> SameCond(e, parsed, conds, x))
      && Elems(defs) !! Nodes(ts) && Elems(order) !! Inner(ts)
    }

    // ---------- conditions ----------

    method PropagateOne(x: Id, p: PropId, basedep: ExprPtr)
      requires Valid() && e.Owns(x, p)
      modifies this`conds, this`revDep, this`implied
      ensures conds == old(conds).WithVisible(p, r.prop(basedep, old(conds).Visible(p), e.Relaxes(x)))
      ensures revDep == ReverseStep(e, old(revDep), x, p, conds.Visible(p), PSelect)
      ensures implied == ReverseStep(e, old(implied), x, p, conds.Visible(p), PImply)
    {
      var dep := PropagateProp(basedep, conds.Visible(p), e.modulesSym, e.Relaxes(x));
      assert IsProp(e, basedep, conds.Visible(p), e.Relaxes(x), r.prop(basedep, conds.Visible(p), e.Relaxes(x)));
      conds := conds.WithVisible(p, dep);
      var prop := e.props[p];
      if prop.kind.PSelect? && x in e.sym {
        revDep := AddReverse(revDep, prop.target, e.sym[x], dep);
      } else if prop.kind.PImply? && x in e.sym {
        implied := AddReverse(implied, prop.target, e.sym[x], dep);
      }
    }

    /** The loop over the properties of one node. */
    method PropagateProps(x: Id)
      requires Valid() && NoDup(e.PropsOf(x))
      requires forall p :: e.Owns(x, p) ==> conds.Visible(p) == parsed.Visible(p)
      modifies this`conds, this`revDep, this`implied
      ensures conds.dep == old(conds).dep
      ensures forall p :: e.Owns(x, p) ==> PropSettled(r, e, parsed, conds, x, p)
      ensures forall p :: !e.Owns(x, p) ==> conds.Visible(p) == old(conds).Visible(p)
      ensures revDep == Reversed(e, conds, old(revDep), x, e.PropsOf(x), PSelect)
      ensures implied == Reversed(e, conds, old(implied), x, e.PropsOf(x), PImply)
    {
      var ps := e.PropsOf(x);
      var basedep := conds.Dep(x);
      for i := 0 to |ps|
        invariant conds == PropsDone(r, e, old(conds), x, ps[..i])
        invariant revDep == Reversed(e, conds, old(revDep), x, ps[..i], PSelect)
        invariant implied == Reversed(e, conds, old(implied), x, ps[..i], PImply)
      {
        ghost var before := conds;
        assert ps[..i + 1][..i] == ps[..i] && ps[i] !in ps[..i];
        PropsDoneMeans(r, e, old(conds), x, ps[..i]);
        if e.Owns(x, ps[i]) {
          PropagateOne(x, ps[i], basedep);
        }
        ReversedExtend(e, before, conds, old(revDep), x, ps, i, PSelect);
        ReversedExtend(e, before, conds, old(implied), x, ps, i, PImply);
      }
      assert ps[..|ps|] == ps;
      PropsDoneMeans(r, e, old(conds), x, ps);
    }

    method PropagateNode(x: Id, base: Id)
      requires Valid() && x != base && SameCond(e, parsed, conds, x) && x !in defs && x !in order && Entered()
      modifies this`conds, this`revDep, this`implied, this`order
      ensures NodeSettled(r, e, parsed, conds, x, base) && CondsOnlyAt(e, old(conds), conds, {x})
      ensures Entered() && order == old(order) + [x]
    {
      hide Reversed, ReversedBy, DirDepOf, PropagateCond, PropagateProp;
      var dep := PropagateCond(conds.Dep(base), conds.Dep(x), e.modulesSym);
      assert IsCond(e, conds.Dep(base), conds.Dep(x), r.cond(conds.Dep(base), conds.Dep(x)));
      conds := conds.WithDep(x, dep);
      assert e.ValidEntry(x);
      PropagateProps(x);
      order := order + [x];
      NodeEntered(old(conds), old(order), x);
    }

    lemma NodeEntered(before: Conds, order0: seq<Id>, x: Id)
      requires x !in defs && x !in order0 && order == order0 + [x]
      requires CondsOnlyAt(e, before, conds, {x}) && NoDup(order0) && NoDup(defs)
      requires forall s :: Lookup(dirDep, s) == DirDepOf(e, before, defs, s)
      requires revDep == Reversed(e, conds, ReversedBy(e, before, order0, PSelect), x, e.PropsOf(x), PSelect)
      requires implied == Reversed(e, conds, ReversedBy(e, before, order0, PImply), x, e.PropsOf(x), PImply)
      ensures Entered()
    {
      forall s ensures Lookup(dirDep, s) == DirDepOf(e, conds, defs, s) {
        forall y | y in defs ensures before.Dep(y) == conds.Dep(y) {
          assert SameCond(e, before, conds, y);
        }
        DirDepFrame(e, before, conds, defs, s);
      }
      ReversedByExtend(e, before, conds, order0, x, PSelect);
      ReversedByExtend(e, before, conds, order0, x, PImply);
      NoDupConcat(order0, [x]);
    }

    /** The loop over the children of a node. */
    method Propagate(p: Id, ghost kids: seq<Tree>)
      requires Valid() && Entered() && p !in Nodes(kids)
      requires Unfinished(kids, Some(p)) && Get(links.list, p) == Head(kids, None)
      requires forall i :: 0 <= i < |kids| ==> SameCond(e, parsed, conds, kids[i].id)
      requires Elems(order) !! Nodes(kids)
      modifies this`conds, this`revDep, this`implied, this`order
      ensures TopsSettled(r, e, parsed, conds, kids, p) && Unfinished(kids, Some(p)) && Entered()
      ensures CondsOnlyAt(e, old(conds), conds, Nodes(kids))
      ensures Elems(order) == old(Elems(order)) + Tops(kids)
    {
      hide Entered, TopsSettled, Inner, Nodes, SameCond, CondsOnlyAt, Distinct, Tops, Elems;
      var menu := Get(links.list, p);
      ghost var c0, o0, i := conds, order, 0;
      PropagatedNone(kids, p);
      while menu.Some?
        invariant 0 <= i <= |kids| && menu == Head(kids[i..], None)
        invariant Chain(links, kids[i..], Some(p), None)
        invariant Propagated(c0, Elems(o0), conds, Elems(order), kids, i, p) && Entered()
        decreases |kids| - i
      {
        ghost var before, settled := conds, order;
        NextToPropagate(c0, o0, kids, i, p);
        PropagateNode(menu.value, p);
        PropagatedMore(c0, Elems(o0), before, settled, kids, i, p);
        menu := Get(links.next, menu.value);
        i := i + 1;
      }
      PropagatedAll(c0, Elems(o0), kids, p);
    }

    // The first i of the nodes on top of kids are settled; before, the conditions
    // were c0 and the nodes o0 were settled.
    ghost predicate Propagated(c0: Conds, o0: set<Id>, c: Conds, o: set<Id>, kids: seq<Tree>, i: nat, p: Id) {
      && i <= |kids|
      && TopsSettled(r, e, parsed, c, kids[..i], p)
      && (forall j :: i <= j < |kids| ==> SameCond(e, parsed, c, kids[j].id))
      && (forall x :: x in Inner(kids) ==> SameCond(e, parsed, c, x))
      && CondsOnlyAt(e, c0, c, Nodes(kids))
      && o == o0 + Tops(kids[..i])
    }

    lemma PropagatedNone(kids: seq<Tree>, p: Id)
      requires forall i :: 0 <= i < |kids| ==> SameCond(e, parsed, conds, kids[i].id)
      requires forall x :: x in Inner(kids) ==> SameCond(e, parsed, conds, x)
      ensures Propagated(conds, Elems(order), conds, Elems(order), kids, 0, p)
    {}

    lemma NextToPropagate(c0: Conds, o0: seq<Id>, kids: seq<Tree>, i: nat, p: Id)
      requires Propagated(c0, Elems(o0), conds, Elems(order), kids, i, p) && i < |kids|
      requires Distinct(kids) && p !in Nodes(kids) && Elems(o0) !! Nodes(kids) && Elems(defs) !! Nodes(kids)
      ensures var x := kids[i].id;
        x != p && SameCond(e, parsed, conds, x) && x !in defs && x !in order && x in Nodes(kids)
    {
      hide TopsSettled, SameCond, CondsOnlyAt, Inner;
      TopIsIn(kids, i);
      TopsAreApart(kids, i);
      assert kids[i].id !in Tops(kids[..i]) && kids[i].id !in Elems(o0);
      assert kids[i].id !in Elems(order) && kids[i].id !in Elems(defs);
    }

    lemma PropagatedMore(c0: Conds, o0: set<Id>, before: Conds, settled: seq<Id>, kids: seq<Tree>, i: nat, p: Id)
      requires i < |kids| && Distinct(kids) && p !in Nodes(kids)
      requires Propagated(c0, o0, before, Elems(settled), kids, i, p)
      requires NodeSettled(r, e, parsed, conds, kids[i].id, p) && CondsOnlyAt(e, before, conds, {kids[i].id})
      requires order == settled + [kids[i].id]
      ensures Propagated(c0, o0, conds, Elems(order), kids, i + 1, p)
    {
      TopIsIn(kids, i);
      TopsAreApart(kids, i);
      OneMoreTop(kids, i);
      ElemsConcat(settled, [kids[i].id]);
      TopsStaySettled(before, kids, i, p);
      forall j | i + 1 <= j < |kids| ensures SameCond(e, parsed, conds, kids[j].id) {
        SameCondTransitive(e, parsed, before, conds, kids[j].id);
      }
      forall x | x in Inner(kids) ensures SameCond(e, parsed, conds, x) {
        SameCondTransitive(e, parsed, before, conds, x);
      }
      forall x | x !in Nodes(kids) ensures SameCond(e, c0, conds, x) {
        SameCondTransitive(e, c0, before, conds, x);
      }
    }

    lemma PropagatedAll(c0: Conds, o0: set<Id>, kids: seq<Tree>, p: Id)
      requires Propagated(c0, o0, conds, Elems(order), kids, |kids|, p) && Distinct(kids) && o0 !! Nodes(kids)
      ensures TopsSettled(r, e, parsed, conds, kids, p) && CondsOnlyAt(e, c0, conds, Nodes(kids))
      ensures forall x :: x in Inner(kids) ==> SameCond(e, parsed, conds, x)
      ensures Elems(order) == o0 + Tops(kids) && Elems(order) !! Inner(kids)
    {
      assert kids[..|kids|] == kids;
      TopsOutsideInner(kids);
      InnerIsInNodes(kids);
    }

    lemma TopsStaySettled(before: Conds, kids: seq<Tree>, i: nat, p: Id)
      requires i < |kids| && Distinct(kids) && p !in Nodes(kids)
      requires TopsSettled(r, e, parsed, before, kids[..i], p)
      requires CondsOnlyAt(e, before, conds, {kids[i].id})
      requires NodeSettled(r, e, parsed, conds, kids[i].id, p)
      ensures TopsSettled(r, e, parsed, conds, kids[..i + 1], p)
    {
      TopIsIn(kids, i);
      TopsAreApart(kids, i);
      assert SameCond(e, before, conds, p);
      forall j | 0 <= j < i ensures NodeSettled(r, e, parsed, conds, kids[j].id, p) {
        assert kids[..i][j] == kids[j];
        assert SameCond(e, before, conds, kids[j].id);
        assert NodeSettled(r, e, parsed, before, kids[j].id, p);
      }
    }

    // ---------- flattening ----------

    /** The inner loop: all trees in the list of m get the parent p. */
    method Reparent(m: Id, p: Id, ghost ks: seq<Tree>) returns (last: Id)
      requires ks != [] && Distinct(ks) && Get(links.list, m) == Head(ks, None)
      requires Chain(links, ks, Some(m), None)
      modifies this`links
      ensures Chain(links, ks, Some(p), None) && last == ks[|ks| - 1].id
      ensures OnlyAt(old(links), links, Nodes(ks))
      ensures links.next == old(links).next && links.list == old(links).list
    {
      last := links.list[m];
      ghost var i := 0;
      ReparentStep(links, ks, 0, Some(m), p);
      links := SetParent(links, last, Some(p));
      while last in links.next
        invariant 0 <= i < |ks| && last == ks[i].id
        invariant Chain(links, ks[..i + 1], Some(p), Head(ks[i + 1..], None))
        invariant Chain(links, ks[i + 1..], Some(m), None)
        invariant OnlyAt(old(links), links, Nodes(ks))
        invariant links.next == old(links).next && links.list == old(links).list
        decreases |ks| - i
      {
        NextOfLast(links, ks, i, Some(p), Head(ks[i + 1..], None));
        ReparentStep(links, ks, i + 1, Some(m), p);
        last := links.next[last];
        links := SetParent(links, last, Some(p));
        i := i + 1;
      }
      NextOfLast(links, ks, i, Some(p), Head(ks[i + 1..], None));
      assert ks[..i + 1] == ks;
    }

    /** The list ks of a node m without prompt is put between m and the trees
        that follow it. */
    method Splice(m: Id, p: Id, ghost ks: seq<Tree>, ghost rest: seq<Tree>)
      requires ks != [] && Distinct([Node(m, ks)] + rest)
      requires Chain(links, [Node(m, ks)] + rest, Some(p), None)
      modifies this`links
      ensures Chain(links, [Node(m, [])] + (ks + rest), Some(p), None)
      ensures OnlyAt(old(links), links, {m} + Nodes(ks))
    {
      ghost var t := [Node(m, ks)];
      assert t[0] == Node(m, ks) && (t + rest)[1..] == rest;
      var last := Reparent(m, p, ks);
      ChainFrame(old(links), links, rest, Some(p), None);
      SplicedChain(links, m, p, ks, rest);
      links := SetNext(links, last, Get(links.next, m));
      links := SetNext(links, m, Get(links.list, m));
      links := SetList(links, m, None);
    }

    /** The flattening loop at the end of menu_finalize. */
    method Flatten(p: Id, ghost kids: seq<Tree>) returns (ghost flat: seq<Tree>)
      requires Distinct(kids) && p !in Nodes(kids) && Get(links.list, p) == Head(kids, None)
      requires Chain(links, kids, Some(p), None)
      modifies this`links
      ensures Chain(links, flat, Some(p), None) && Get(links.list, p) == Head(flat, None)
      ensures Ids(flat) == Ids(kids) && OnlyAt(old(links), links, Nodes(kids))
      ensures flat == Flat(e, kids) && TopsQuiet(e, flat)
    {
      flat := [];
      ghost var todo := kids;
      assert flat + todo == kids && flat + Flat(e, todo) == Flat(e, kids);
      var menu := Get(links.list, p);
      while menu.Some?
        invariant menu == Head(todo, None)
        invariant Chain(links, flat + todo, Some(p), None)
        invariant Ids(flat + todo) == Ids(kids) && OnlyAt(old(links), links, Nodes(kids))
        invariant flat + Flat(e, todo) == Flat(e, kids)
        decreases |Ids(todo)|
      {
        SamePreorder(flat + todo, kids, None);
        flat, todo := FlattenOne(menu.value, p, flat, todo);
        menu := Get(links.next, menu.value);
      }
      assert flat + todo == flat && Flat(e, todo) == [];
      SamePreorder(flat, kids, None);
      FlatIsQuiet(e, kids);
    }

    // One round of the loop: flat grows by the node m.
    method FlattenOne(m: Id, p: Id, ghost flat: seq<Tree>, ghost todo: seq<Tree>)
      returns (ghost flat': seq<Tree>, ghost todo': seq<Tree>)
      requires todo != [] && todo[0].id == m && Distinct(flat + todo)
      requires Chain(links, flat + todo, Some(p), None)
      modifies this`links
      ensures Chain(links, flat' + todo', Some(p), None) && Get(links.next, m) == Head(todo', None)
      ensures Ids(flat' + todo') == Ids(flat + todo) && |Ids(todo')| < |Ids(todo)|
      ensures OnlyAt(old(links), links, Nodes(flat + todo))
      ensures flat' + Flat(e, todo') == flat + Flat(e, todo)
    {
      hide Flat, Distinct, Chain, Nodes;
      ghost var t, rest := todo[0], todo[1..];
      assert todo == [t] + rest;
      HeadHasList(links, flat, t, rest, p);
      FlatStep(e, flat, t, rest);
      if m in links.list && m !in e.prompt {
        SpliceAfter(m, p, flat, t, rest);
        t, rest := Node(t.id, []), t.kids + rest;
      } else {
        IdsCons(t, rest);
      }
      NextInChain(links, flat, t, rest, Some(p));
      flat', todo' := flat + [t], rest;
      assert flat' + todo' == flat + ([t] + rest);
    }

    lemma HeadHasList(h: Links, flat: seq<Tree>, t: Tree, rest: seq<Tree>, p: Id)
      requires Chain(h, flat + ([t] + rest), Some(p), None)
      ensures t.id in h.list <==> t.kids != []
    {
      ChainConcat(h, flat, [t] + rest, Some(p), None);
      assert ([t] + rest)[0] == t;
    }

    // Splicing in the middle of a chain.
    method SpliceAfter(m: Id, p: Id, ghost before: seq<Tree>, ghost t: Tree, ghost rest: seq<Tree>)
      requires t.id == m && Distinct(before + ([t] + rest)) && m in links.list
      requires Chain(links, before + ([t] + rest), Some(p), None)
      modifies this`links
      ensures Chain(links, before + ([Node(m, [])] + (t.kids + rest)), Some(p), None)
      ensures Ids(before + ([Node(m, [])] + (t.kids + rest))) == Ids(before + ([t] + rest))
      ensures |Ids(t.kids + rest)| < |Ids([t] + rest)|
      ensures OnlyAt(old(links), links, Nodes(before + ([t] + rest)))
    {
      NodesConcat(before, [t] + rest);
      NodesConcat([t], rest);
      ChainConcat(links, before, [t] + rest, Some(p), None);
      assert t == Node(m, t.kids) && ([t] + rest)[0] == t;
      Splice(m, p, t.kids, rest);
      ChainFrame(old(links), links, before, Some(p), Some(m));
      ChainConcat(links, before, [Node(m, [])] + (t.kids + rest), Some(p), None);
      SpliceKeepsPreorder(before, t, rest);
    }

    // ---------- menu_finalize ----------

    // What calls on the trees ts leave behind, begun with the conditions c0, the
    // marks d0 and the calls l0; `ids` are the nodes called on.
    ghost predicate Finalized(c0: Conds, d0: Marks, l0: seq<Id>, ts: seq<Tree>, ids: seq<Id>)
      reads this`conds, this`defs, this`dirDep, this`order, this`revDep, this`implied, this`log
    {
      && InnerSettled(r, e, parsed, conds, ts)
      && CondsOnlyAt(e, c0, conds, Inner(ts))
      && Entered()
      && Done() == Marks(d0.defs + (Nodes(ts) * e.sym.Keys), d0.settled + Inner(ts))
      && log == l0 + ids
    }

    // One more call, on the trees n to n', for a loop that began with c0, d0, l0.
    lemma CalledOnce(c0: Conds, d0: Marks, l0: seq<Id>, c1: Conds, d1: Marks, l1: seq<Id>,
                     ts: seq<Tree>, n: nat, n': nat, ids: seq<Id>, more: seq<Id>)
      requires n <= n' <= |ts| && Distinct(ts)
      requires InnerSettled(r, e, parsed, c1, ts[..n]) && CondsOnlyAt(e, c0, c1, Inner(ts[..n]))
      requires d1 == Marks(d0.defs + (Nodes(ts[..n]) * e.sym.Keys), d0.settled + Inner(ts[..n])) && l1 == l0 + ids
      requires Finalized(c1, d1, l1, ts[n..n'], more)
      ensures Finalized(c0, d0, l0, ts[..n'], ids + more)
    {
      hide Entered, InnerSettled, Nodes, Inner, CondsOnlyAt, Distinct;
      ConsumeMore(r, e, parsed, c0, c1, conds, ts, n, n' - n);
      assert ts[..n'] == ts[..n] + ts[n..n'];
      NodesConcat(ts[..n], ts[n..n']);
      InnerConcat(ts[..n], ts[n..n']);
    }

    /** menu_finalize on node p, the top of t, whose following siblings are
        rest. Some of them, the first n, may become its submenu; t' is the tree
        below p afterwards. The preorder of the nodes does not change, and it is
        the order in which menu_finalize is called on them, once each. */
    method MenuFinalize(p: Id, ghost t: Tree, ghost rest: seq<Tree>, ghost par: Option<Id>)
      returns (ghost t': Tree, ghost n: nat, ghost g: Tree)
      requires Valid() && Entered() && t.id == p && Unfinished([t] + rest, par)
      modifies this
      ensures n <= |rest| && t'.id == p
      ensures Chain(links, [t'] + rest[n..], par, None)
      ensures Ids([t']) == Ids([t] + rest[..n])
      ensures OnlyAt(old(links), links, Nodes([t] + rest[..n]))
      ensures Finalized(old(conds), old(Done()), old(log), [t] + rest[..n], Ids([t']))
      ensures IsFirst(r, e, conds, [t] + rest, g, n + 1) && t' == Node(p, Hoist(e, g.kids))
      decreases |Ids([t] + rest)|, 1
    {
      hide IsFirst, AreGroups, Hoist, Topped, Flat, TopsQuiet;
      hide Finalized, Entered, Unfinished, SymbolsAreLeaves, Inner, InnerSettled, TopsSettled;
      hide Chain, Nodes, Ids, Distinct, OnlyAt;
      ghost var h0, c0, d0, l0 := links, conds, Done(), log;
      Unfold(t, rest, par);
      TopKids(links, t, rest, par);
      log := log + [p];
      ghost var kids := t.kids;
      n, g := 0, t;
      if p in links.list {
        Propagate(p, t.kids);
        ghost var c1, d1 := conds, Done();
        ghost var gs;
        kids, gs := FinalizeKids(p, t.kids);
        g := Node(p, gs);
        FirstWithList(t, rest, g);
        ParentFinalized(c0, c1, d0, d1, l0, t, kids);
        ReplaceKids(h0, links, t, kids, rest, par);
      } else if p in e.sym {
        kids, n, g := CreateSubmenu(p, t, rest, par);
        TakenPreorder(t, rest, n, kids);
        EnterDependency(p, c0, d0, l0, t, rest, n, kids);
      } else {
        LeafFinalized(c0, d0, l0, t);
        FirstLeaf(t, rest);
      }
      assert kids == Topped(e, g.kids);
      t' := Node(p, kids);
      ghost var h1 := links;
      assert n == 0 ==> [t] + rest[..n] == [t] && rest[n..] == rest;
      TakenPlace(t, t', rest, n);
      assert n == 0 ==> Nodes([t] + rest[..n]) == Nodes([t]);
      OnlyAtMore(h0, h1, if p in e.sym && t.kids == [] then {p} + Nodes(rest[..n]) else Nodes(t.kids),
                 Nodes([t] + rest[..n]));
      TopKids(links, t', rest[n..], par);
      kids := Flatten(p, kids);
      ReplaceKids(h1, links, t', kids, rest[n..], par);
      OnlyAtTransitive(h0, h1, links, Nodes([t] + rest[..n]), Nodes(t'.kids));
      FlatOfTopped(e, g.kids);
      t' := Node(p, kids);
    }

    lemma FirstWithList(t: Tree, rest: seq<Tree>, g: Tree)
      requires t.kids != [] && g.id == t.id && AreGroups(r, e, conds, t.kids, g.kids, |t.kids|)
      ensures IsFirst(r, e, conds, [t] + rest, g, 1)
    {
      assert ([t] + rest)[0] == t;
    }

    lemma FirstLeaf(t: Tree, rest: seq<Tree>)
      requires t.kids == [] && t.id !in e.sym
      ensures IsFirst(r, e, conds, [t] + rest, t, 1) && Topped(e, t.kids) == []
    {
      assert ([t] + rest)[0] == t;
    }

    /** conf_parse's call on the root menu. Afterwards the pointers represent a
        tree with the same preorder, in which each node's parent is the node
        whose list holds it; every node was finalized once, in preorder; all
        conditions are settled; and each definition counts in dirDep. */
    method FinalizeRoot(root: Id, ghost t: Tree) returns (ghost t': Tree, ghost g: Tree)
      requires Valid() && t.id == root && Chain(links, [t], None, None) && Distinct([t])
      requires SymbolsAreLeaves(e, [t])
      requires conds == parsed && defs == [] && order == [] && log == []
      requires dirDep == map[] && revDep == map[] && implied == map[]
      modifies this
      ensures t'.id == root && Chain(links, [t'], None, None) && Ids([t']) == Ids([t])
      ensures log == Ids([t])
      ensures InnerSettled(r, e, parsed, conds, [t]) && conds.Dep(root) == parsed.Dep(root)
      ensures Entered() && Elems(defs) == Nodes([t]) * e.sym.Keys && Elems(order) == Inner([t])
      ensures IsFinished(links, r, e, conds, t, g) && t' == Node(root, Hoist(e, g.kids))
    {
      hide IsFirst, Hoist;
      hide InnerSettled, Chain, Distinct, Nodes, Ids, SymbolsAreLeaves, Entered, CondsOnlyAt;
      ghost var n;
      assert [t] + [] == [t];
      NothingFinalized(t);
      t', n, g := MenuFinalize(root, t, [], None);
      assert [t] + [][..n] == [t] && [t'] + [][n..] == [t'];
      RootKept(old(conds), t);
    }

    lemma NothingFinalized(t: Tree)
      requires Chain(links, [t], None, None) && Distinct([t]) && SymbolsAreLeaves(e, [t])
      requires conds == parsed && defs == [] && order == []
      requires dirDep == map[] && revDep == map[] && implied == map[]
      ensures Unfinished([t], None) && Entered() && Done() == Marks({}, {})
    {}

    lemma RootKept(before: Conds, t: Tree)
      requires CondsOnlyAt(e, before, conds, Inner([t])) && Distinct([t])
      ensures conds.Dep(t.id) == before.Dep(t.id)
    {
      assert [t][1..] == [] && Inner([]) == {} && SameCond(e, before, conds, t.id);
    }

    lemma Unfold(t: Tree, rest: seq<Tree>, par: Option<Id>)
      requires Unfinished([t] + rest, par)
      ensures Distinct([t] + rest) && Chain(links, [t] + rest, par, None)
      ensures Unfinished(t.kids, Some(t.id)) && t.id !in Elems(defs) && Elems(order) !! Nodes(t.kids)
      ensures forall i :: 0 <= i < |t.kids| ==> SameCond(e, parsed, conds, t.kids[i].id)
      ensures t.id in e.sym ==> t.kids == []
    {
      assert ([t] + rest)[0] == t && ([t] + rest)[1..] == rest;
      InnerIsInNodes(t.kids);
      forall i | 0 <= i < |t.kids| ensures SameCond(e, parsed, conds, t.kids[i].id) {
        TopIsIn(t.kids, i);
      }
      assert t.id in Nodes([t] + rest);
    }

    // A node with children: their conditions, then the calls on them.
    lemma ParentFinalized(c0: Conds, c1: Conds, d0: Marks, d1: Marks, l0: seq<Id>, t: Tree, kids: seq<Tree>)
      requires t.id !in e.sym && t.id !in Nodes(t.kids) && Distinct(t.kids)
      requires TopsSettled(r, e, parsed, c1, t.kids, t.id) && CondsOnlyAt(e, c0, c1, Nodes(t.kids))
      requires d1 == Marks(d0.defs, d0.settled + Tops(t.kids))
      requires Finalized(c1, d1, l0 + [t.id], t.kids, Ids(kids)) && Ids(kids) == Ids(t.kids)
      ensures Finalized(c0, d0, l0, [t], Ids([Node(t.id, kids)]))
    {
      hide Entered, InnerSettled, TopsSettled, CondsOnlyAt, Distinct;
      ParentSettled(c0, c1, t);
      TopsAndInner(t.kids);
      assert [t][1..] == [] && Inner([]) == {} && Nodes([]) == {};
      assert d0.defs + (Nodes([t]) * e.sym.Keys) == d1.defs + (Nodes(t.kids) * e.sym.Keys);
      assert d0.settled + Inner([t]) == d1.settled + Inner(t.kids);
      IdsCons(Node(t.id, kids), []);
      assert [Node(t.id, kids)] + [] == [Node(t.id, kids)];
      assert Ids([]) == [] && log == l0 + Ids([Node(t.id, kids)]);
    }

    lemma ParentSettled(c0: Conds, c1: Conds, t: Tree)
      requires t.id !in Nodes(t.kids) && Distinct(t.kids)
      requires TopsSettled(r, e, parsed, c1, t.kids, t.id) && CondsOnlyAt(e, c0, c1, Nodes(t.kids))
      requires InnerSettled(r, e, parsed, conds, t.kids) && CondsOnlyAt(e, c1, conds, Inner(t.kids))
      ensures InnerSettled(r, e, parsed, conds, [t]) && CondsOnlyAt(e, c0, conds, Inner([t]))
    {
      InnerIsInNodes(t.kids);
      assert SameCond(e, c1, conds, t.id);
      forall i | 0 <= i < |t.kids| ensures NodeSettled(r, e, parsed, conds, t.kids[i].id, t.id) {
        TopsAreApart(t.kids, i);
        assert SameCond(e, c1, conds, t.kids[i].id);
        assert NodeSettled(r, e, parsed, c1, t.kids[i].id, t.id);
      }
      assert [t][1..] == [] && Inner([]) == {};
      forall x | x !in Nodes(t.kids) ensures SameCond(e, c0, conds, x) {
        SameCondTransitive(e, c0, c1, conds, x);
      }
    }

    // A childless node without symbol.
    lemma LeafFinalized(c0: Conds, d0: Marks, l0: seq<Id>, t: Tree)
      requires t.id !in e.sym && t.kids == [] && Entered()
      requires c0 == conds && d0 == Done() && log == l0 + [t.id]
      ensures Finalized(c0, d0, l0, [t], Ids([t]))
    {
      assert [t][1..] == [] && Inner([]) == {} && Nodes([]) == {} && Ids([]) == [];
    }

    /** The dependency of p is entered into the direct dependency of its symbol. */
    method AddDefinition(p: Id)
      requires p in e.sym && Entered() && p !in Elems(defs)
      modifies this`defs, this`dirDep
      ensures Entered() && Elems(defs) == old(Elems(defs)) + {p}
    {
      var s := e.sym[p];
      var d := AllocOr(Lookup(dirDep, s), conds.Dep(p));
      dirDep := if d.Some? then dirDep[s := d.value] else dirDep - {s};
      ghost var before := defs;
      defs := defs + [p];
      assert Elems([p]) == {p};
      ElemsConcat(before, [p]);
      NoDupConcat(before, [p]);
      forall x ensures Lookup(dirDep, x) == DirDepOf(e, conds, defs, x) {
        DirDepExtend(e, conds, before, p, x);
      }
    }

    method EnterDependency(p: Id, ghost c0: Conds, ghost d0: Marks, ghost l0: seq<Id>, ghost t: Tree,
                           ghost rest: seq<Tree>, ghost n: nat, ghost kids: seq<Tree>)
      requires p in e.sym && t == Node(p, []) && n <= |rest| && p !in d0.defs && Distinct([t] + rest)
      requires Finalized(c0, d0, l0 + [p], rest[..n], Ids(kids)) && Ids(kids) == Ids(rest[..n])
      modifies this`defs, this`dirDep
      ensures Finalized(c0, d0, l0, [t] + rest[..n], Ids([Node(p, kids)]))
    {
      hide Entered, Nodes, Ids, Distinct, CondsOnlyAt;
      TakenPreorder(t, rest, n, kids);
      AddDefinition(p);
      IdsCons(Node(p, kids), []);
      EmptyPreorder([]);
      assert [Node(p, kids)] + [] == [Node(p, kids)];
      assert ([t] + rest[..n])[0] == t && ([t] + rest[..n])[1..] == rest[..n];
      assert l0 + [p] + Ids(kids) == l0 + Ids([Node(p, kids)]);
      assert Nodes(t.kids) == {} && Inner([t] + rest[..n]) == Inner(rest[..n]);
      assert InnerSettled(r, e, parsed, conds, [t] + rest[..n]);
      assert log == l0 + Ids([Node(p, kids)]);
      assert Elems(defs) == d0.defs + (Nodes([t] + rest[..n]) * e.sym.Keys);
      assert CondsOnlyAt(e, c0, conds, Inner([t] + rest[..n]));
    }

    // The call on the n-th tree of ts: it takes in the trees up to n'.
    method FinalizeNext(menu: Id, ghost ts: seq<Tree>, ghost n: nat, ghost par: Option<Id>)
      returns (ghost k: Tree, ghost n': nat, ghost g: Tree)
      requires Valid() && Entered() && n < |ts| && ts[n].id == menu
      requires Distinct(ts) && SymbolsAreLeaves(e, ts) && Unfinished(ts[n..], par)
      modifies this
      ensures n < n' <= |ts| && k.id == menu
      ensures Chain(links, [k] + ts[n'..], par, None) && Ids([k]) == Ids(ts[n..n'])
      ensures OnlyAt(old(links), links, Nodes(ts[n..n']))
      ensures Finalized(old(conds), old(Done()), old(log), ts[n..n'], Ids([k])) && Unfinished(ts[n'..], par)
      ensures IsFirst(r, e, conds, ts[n..], g, n' - n) && k == Node(g.id, Hoist(e, g.kids))
      decreases |Ids(ts[n..])|, 2
    {
      hide IsFirst, Hoist;
      hide Entered, SymbolsAreLeaves, Inner, Chain, Nodes, Ids, InnerSettled;
      ghost var t, rest := ts[n], ts[n + 1..];
      assert ts[n..] == [t] + rest;
      ghost var m;
      k, m, g := MenuFinalize(menu, t, rest, par);
      assert g.id == menu by { FirstId([t] + rest, g, m + 1); }
      n' := n + 1 + m;
      assert rest[m..] == ts[n'..] && [t] + rest[..m] == ts[n..n'] == ts[n..][..1 + m] && ts[n'..] == ts[n..][1 + m..];
      ChainRest(links, k, ts[n'..], par);
      RestUnfinished(old(conds), old(Done()), ts[n..], 1 + m, par);
    }

    lemma FirstId(ts: seq<Tree>, g: Tree, n: nat)
      requires IsFirst(r, e, conds, ts, g, n)
      ensures ts != [] && g.id == ts[0].id
    {}

    lemma RestUnfinished(before: Conds, d0: Marks, ts: seq<Tree>, n: nat, par: Option<Id>)
      requires n <= |ts| && Distinct(ts) && SymbolsAreLeaves(e, ts)
      requires Chain(links, ts[n..], par, None)
      requires forall x :: x in Inner(ts) ==> SameCond(e, parsed, before, x)
      requires CondsOnlyAt(e, before, conds, Inner(ts[..n]))
      requires d0.defs !! Nodes(ts) && Elems(defs) == d0.defs + (Nodes(ts[..n]) * e.sym.Keys)
      requires d0.settled !! Inner(ts) && Elems(order) == d0.settled + Inner(ts[..n])
      ensures Unfinished(ts[n..], par)
    {
      assert ts == ts[..n] + ts[n..];
      NodesConcat(ts[..n], ts[n..]);
      LeavesConcat(e, ts[..n], ts[n..]);
      InnerConcat(ts[..n], ts[n..]);
      InnerIsInNodes(ts[..n]);
      InnerIsInNodes(ts[n..]);
      forall x | x in Inner(ts[n..]) ensures SameCond(e, parsed, conds, x) {
        SameCondTransitive(e, parsed, before, conds, x);
      }
    }

    // A loop over the chain ts, begun with h0, c0, d0 and l0, has made `done` of
    // its first n trees, which give the groups gs: children of p, while the others
    // still hang below par.
    ghost predicate InLoop(h0: Links, c0: Conds, d0: Marks, l0: seq<Id>, ts: seq<Tree>, n: nat,
                           done: seq<Tree>, gs: seq<Tree>, par: Option<Id>, p: Id)
      reads this
    {
      && n <= |ts| && Distinct(ts) && SymbolsAreLeaves(e, ts)
      && Chain(links, done, Some(p), Head(ts[n..], None)) && Unfinished(ts[n..], par)
      && Ids(done) == Ids(ts[..n]) && OnlyAt(h0, links, Nodes(ts[..n]))
      && Finalized(c0, d0, l0, ts[..n], Ids(done))
      && AreGroups(r, e, conds, ts, gs, n) && done == Topped(e, gs)
    }

    // One round of that loop, up to the adoption of the finalized tree k.
    method LoopStep(menu: Id, ghost h0: Links, ghost c0: Conds, ghost d0: Marks, ghost l0: seq<Id>,
                    ghost ts: seq<Tree>, ghost n: nat, ghost done: seq<Tree>, ghost gs: seq<Tree>,
                    ghost par: Option<Id>, ghost p: Id)
      returns (ghost k: Tree, ghost n': nat, ghost g: Tree)
      requires Valid() && InLoop(h0, c0, d0, l0, ts, n, done, gs, par, p) && n < |ts| && ts[n].id == menu
      modifies this
      ensures n < n' <= |ts| && k.id == menu
      ensures Chain(links, done, Some(p), Some(menu)) && Chain(links, [k] + ts[n'..], par, None)
      ensures Unfinished(ts[n'..], par) && Ids(done + [k]) == Ids(ts[..n'])
      ensures OnlyAt(h0, links, Nodes(ts[..n']))
      ensures Finalized(c0, d0, l0, ts[..n'], Ids(done + [k]))
      ensures AreGroups(r, e, conds, ts, gs + [g], n') && done + [k] == Topped(e, gs + [g])
      decreases |Ids(ts[n..])|, 3
    {
      hide IsFirst, AreGroups, Hoist, Topped;
      PartsOf(ts, n);
      ghost var c1, h1, d1, l1 := conds, links, Done(), log;
      k, n', g := FinalizeNext(menu, ts, n, par);
      GroupsGrow(c1, ts, gs, n, g, n');
      CalledOnce(c0, d0, l0, c1, d1, l1, ts, n, n', Ids(done), Ids([k]));
      GrowDone(h1, ts, n, n', done, k, p);
    }

    lemma GroupsGrow(c1: Conds, ts: seq<Tree>, gs: seq<Tree>, n: nat, g: Tree, n': nat)
      requires Valid() && n <= n' <= |ts| && Distinct(ts) && AreGroups(r, e, c1, ts, gs, n)
      requires CondsOnlyAt(e, c1, conds, Inner(ts[n..n'])) && IsFirst(r, e, conds, ts[n..], g, n' - n)
      ensures AreGroups(r, e, conds, ts, gs + [g], n')
      ensures Topped(e, gs + [g]) == Topped(e, gs) + [Node(g.id, Hoist(e, g.kids))]
    {
      hide IsFirst, AreGroups, Hoist, Topped, Distinct, Inner, Nodes;
      forall x | x in ReadNodes(ts, n) ensures SameCond(e, c1, conds, x) {
        ReadElsewhere(ts, n, n', x);
      }
      GroupsFrame(r, e, c1, conds, ts, gs, n);
      OneMoreGroup(r, e, conds, ts, gs, n, g, n' - n);
      ToppedConcat(e, gs, [g]);
      ToppedOne(e, g);
    }

    lemma ReadElsewhere(ts: seq<Tree>, n: nat, n': nat, x: Id)
      requires n <= n' <= |ts| && Distinct(ts) && x in ReadNodes(ts, n)
      ensures x !in Inner(ts[n..n'])
    {
      hide Inner, Nodes, Distinct, Tops;
      assert ts == ts[..n] + ts[n..] && ts[n..] == ts[n..n'] + ts[n'..];
      NodesConcat(ts[..n], ts[n..]);
      InnerConcat(ts[..n], ts[n..]);
      InnerConcat(ts[n..n'], ts[n'..]);
      NodesConcat(ts[n..n'], ts[n'..]);
      InnerIsInNodes(ts[..n]);
      InnerIsInNodes(ts[n..n']);
      TopsOutsideInner(ts);
    }

    // The trees before a finalized one are not touched.
    lemma GrowDone(before: Links, ts: seq<Tree>, n: nat, n': nat, done: seq<Tree>, k: Tree, p: Id)
      requires n < n' <= |ts| && Distinct(ts)
      requires Ids(done) == Ids(ts[..n]) && Ids([k]) == Ids(ts[n..n'])
      requires OnlyAt(before, links, Nodes(ts[n..n'])) && Chain(before, done, Some(p), Some(k.id))
      ensures Chain(links, done, Some(p), Some(k.id))
      ensures Ids(done + [k]) == Ids(ts[..n']) == Ids(done) + Ids([k])
      ensures Nodes(ts[..n']) == Nodes(ts[..n]) + Nodes(ts[n..n'])
    {
      assert ts[..n'] == ts[..n] + ts[n..n'] && ts == ts[..n'] + ts[n'..];
      NodesConcat(ts[..n'], ts[n'..]);
      NodesConcat(ts[..n], ts[n..n']);
      IdsConcat(ts[..n], ts[n..n']);
      IdsConcat(done, [k]);
      SamePreorder(done, ts[..n], None);
      ChainFrame(before, links, done, Some(p), Some(k.id));
    }

    /** The loop that finalizes the children of p. */
    method FinalizeKids(p: Id, ghost kids: seq<Tree>) returns (ghost kids': seq<Tree>, ghost gs: seq<Tree>)
      requires Valid() && Entered() && p !in Nodes(kids)
      requires Unfinished(kids, Some(p)) && Get(links.list, p) == Head(kids, None)
      modifies this
      ensures Chain(links, kids', Some(p), None) && Ids(kids') == Ids(kids)
      ensures OnlyAt(old(links), links, Nodes(kids))
      ensures Finalized(old(conds), old(Done()), old(log), kids, Ids(kids'))
      ensures AreGroups(r, e, conds, kids, gs, |kids|) && kids' == Topped(e, gs)
      decreases |Ids(kids)|, 4
    {
      hide IsFirst, AreGroups, Hoist, Topped;
      hide Finalized, Entered, Nodes, Ids, Chain, OnlyAt, Distinct, SymbolsAreLeaves, Inner;
      var menu := Get(links.list, p);
      ghost var h0, c0, d0, l0 := links, conds, Done(), log;
      ghost var n := 0;
      kids', gs := [], [];
      assert kids[0..] == kids;
      LoopBegins(kids, Some(p), p);
      while menu.Some?
        invariant n <= |kids| && menu == Head(kids[n..], None)
        invariant InLoop(h0, c0, d0, l0, kids, n, kids', gs, Some(p), p)
        decreases |kids| - n
      {
        ghost var k: Tree, g: Tree;
        ghost var n': nat;
        PartsOf(kids, n);
        k, n', g := LoopStep(menu.value, h0, c0, d0, l0, kids, n, kids', gs, Some(p), p);
        KeepChild(kids', k, kids[n'..], p);
        menu := Get(links.next, menu.value);
        kids', gs, n := kids' + [k], gs + [g], n';
      }
      LoopEnds(h0, c0, d0, l0, kids, kids', gs, p);
    }

    lemma LoopBegins(ts: seq<Tree>, par: Option<Id>, p: Id)
      requires Unfinished(ts, par) && Entered()
      ensures InLoop(links, conds, Done(), log, ts, 0, [], [], par, p)
    {
      hide Entered;
      assert ts[0..] == ts && ts[..0] == [] && Ids([]) == [] && Nodes([]) == {} && Inner([]) == {};
      assert log + Ids([]) == log;
      assert Done() == Marks(Done().defs + (Nodes([]) * e.sym.Keys), Done().settled + Inner([]));
    }

    lemma LoopEnds(h0: Links, c0: Conds, d0: Marks, l0: seq<Id>, ts: seq<Tree>, done: seq<Tree>, gs: seq<Tree>, p: Id)
      requires InLoop(h0, c0, d0, l0, ts, |ts|, done, gs, Some(p), p)
      ensures Chain(links, done, Some(p), None) && Ids(done) == Ids(ts) && OnlyAt(h0, links, Nodes(ts))
      ensures Finalized(c0, d0, l0, ts, Ids(done))
    {
      hide Finalized, Chain, Ids, OnlyAt;
      assert ts[..|ts|] == ts && ts[|ts|..] == [];
    }

    lemma KeepChild(done: seq<Tree>, k: Tree, rest: seq<Tree>, p: Id)
      requires Chain(links, done, Some(p), Some(k.id)) && Chain(links, [k] + rest, Some(p), None)
      ensures Chain(links, done + [k], Some(p), Head(rest, None))
      ensures Get(links.next, k.id) == Head(rest, None)
    {
      assert ([k] + rest)[1..] == rest;
      ChainConcat(links, [k], rest, Some(p), None);
      ChainConcat(links, done, [k], Some(p), Head(rest, None));
    }

    // expr_contains_symbol, expr_depends_symbol and the superset test.
    method SubmenuTest(p: Id, x: Id) returns (joins: bool)
      requires Valid() && p in e.sym
      ensures joins == Joins(r, e, conds, p, x)
    {
      var s, base, dep := e.sym[p], PromptCond(e, conds, p), EntryCond(e, conds, x);
      joins := JoinsSubmenu(s, base, dep);
      assert IsTest(s, base, dep, r.joins(s, base, dep));
    }

    // One round of the submenu loop: the entry passed the test.
    method SubmenuStep(menu: Id, p: Id, ghost h0: Links, ghost c0: Conds, ghost d0: Marks, ghost l0: seq<Id>,
                       ghost ts: seq<Tree>, ghost n: nat, ghost taken: seq<Tree>, ghost gs: seq<Tree>,
                       ghost par: Option<Id>)
      returns (ghost k: Tree, ghost n': nat, ghost g: Tree)
      requires Valid() && InLoop(h0, c0, d0, l0, ts, n, taken, gs, par, p) && n < |ts| && ts[n].id == menu
      modifies this
      ensures n < n' <= |ts| && k.id == menu
      ensures InLoop(h0, c0, d0, l0, ts, n', taken + [k], gs + [g], par, p)
      ensures Get(links.next, menu) == Head(ts[n'..], None)
      decreases |Ids(ts[n..])|, 4
    {
      hide Finalized, Entered, SymbolsAreLeaves, Inner, Nodes, Ids, Distinct, Chain, OnlyAt;
      hide AreGroups, Topped;
      k, n', g := LoopStep(menu, h0, c0, d0, l0, ts, n, taken, gs, par, p);
      PartsOf(ts, n');
      AdoptNext(links, taken, k, ts[..n'], ts[n'..], par, p);
      OnlyAtParent(h0, links, menu, p, Nodes(ts[..n']));
      links := SetParent(links, menu, Some(p));
    }

    /** The loop over the entries after p: exactly those that pass the test, up to
        the first that does not, are finalized and become children of p. */
    method TakeEntries(p: Id, ghost rest: seq<Tree>, ghost par: Option<Id>)
      returns (last: Option<Id>, ghost taken: seq<Tree>, ghost gs: seq<Tree>, ghost n: nat)
      requires Valid() && p in e.sym && p !in Nodes(rest) && Get(links.next, p) == Head(rest, None)
      requires InLoop(links, conds, Done(), log, rest, 0, [], [], par, p)
      modifies this
      ensures n <= |rest|
      ensures InLoop(old(links), old(conds), old(Done()), old(log), rest, n, taken, gs, par, p)
      ensures last == if taken == [] then None else Some(taken[|taken| - 1].id)
      ensures forall i :: 0 <= i < |taken| ==> Joins(r, e, old(conds), p, taken[i].id)
      ensures n < |rest| ==> !Joins(r, e, old(conds), p, rest[n].id)
      decreases |Ids(rest)|, 5
    {
      hide Unfinished, Finalized, Entered, Chain, Nodes, Ids, Distinct, OnlyAt, SymbolsAreLeaves, Inner;
      hide AreGroups, Topped;
      ghost var h0, c0, d0, l0 := links, conds, Done(), log;
      var menu := Get(links.next, p);
      last, taken, gs, n := None, [], [], 0;
      while menu.Some?
        invariant n <= |rest| && menu == Head(rest[n..], None)
        invariant InLoop(h0, c0, d0, l0, rest, n, taken, gs, par, p)
        invariant last == if taken == [] then None else Some(taken[|taken| - 1].id)
        invariant forall i :: 0 <= i < |taken| ==> Joins(r, e, c0, p, taken[i].id)
        decreases |rest| - n
      {
        TestUnchanged(h0, c0, d0, l0, taken, gs, par, p, rest, n);
        var joins := SubmenuTest(p, menu.value);
        if !joins {
          break;
        }
        ghost var k: Tree, g: Tree;
        ghost var n': nat;
        PartsOf(rest, n);
        k, n', g := SubmenuStep(menu.value, p, h0, c0, d0, l0, rest, n, taken, gs, par);
        last := menu;
        menu := Get(links.next, menu.value);
        taken, gs, n := taken + [k], gs + [g], n';
      }
    }

    /** Automatic submenu creation below the symbol of p. */
    method CreateSubmenu(p: Id, ghost t: Tree, ghost rest: seq<Tree>, ghost par: Option<Id>)
      returns (ghost taken: seq<Tree>, ghost n: nat, ghost g: Tree)
      requires Valid() && Entered() && p in e.sym && t == Node(p, []) && Unfinished([t] + rest, par)
      modifies this
      ensures n <= |rest| && Chain(links, [Node(p, taken)] + rest[n..], par, None)
      ensures Ids(taken) == Ids(rest[..n])
      ensures OnlyAt(old(links), links, {p} + Nodes(rest[..n]))
      ensures Finalized(old(conds), old(Done()), old(log), rest[..n], Ids(taken))
      ensures IsFirst(r, e, conds, [t] + rest, g, n + 1) && g.id == p && taken == Topped(e, g.kids)
      decreases |Ids([t] + rest)|, 0
    {
      hide IsFirst, AreGroups, Topped;
      hide InLoop, Unfinished, Finalized, Entered, Chain, Nodes, Ids, Distinct, OnlyAt, Joins;
      SplitTop(t, rest, par);
      ghost var h0, c0, d0, l0 := links, conds, Done(), log;
      var last;
      ghost var gs;
      last, taken, gs, n := TakeEntries(p, rest, par);
      CloseSubmenu(h0, c0, d0, l0, taken, gs, t, rest, n, par);
      SubmenuIsFirst(h0, c0, d0, l0, taken, gs, t, rest, n, par);
      g := Node(p, gs);
      if last.Some? {
        links := SetList(links, p, Get(links.next, p));
        links := SetNext(links, p, Get(links.next, last.value));
        links := SetNext(links, last.value, None);
      }
    }

    // The pointers after the loop, and after the entries found are linked in.
    lemma CloseSubmenu(h0: Links, c0: Conds, d0: Marks, l0: seq<Id>, taken: seq<Tree>, gs: seq<Tree>, t: Tree,
                       rest: seq<Tree>, n: nat, par: Option<Id>)
      requires t.kids == [] && Distinct([t] + rest) && Chain(h0, [t] + rest, par, None)
      requires InLoop(h0, c0, d0, l0, rest, n, taken, gs, par, t.id)
      ensures n <= |rest| && Ids(taken) == Ids(rest[..n]) && Finalized(c0, d0, l0, rest[..n], Ids(taken))
      ensures IsClosed(h0, if taken == [] then links else Submenu(links, t.id, taken[|taken| - 1].id),
                       taken, t.id, rest, n, par)
    {
      hide Finalized, Entered;
      CloseChain(h0, links, taken, t, rest, n, par);
    }

    // The groups below the symbol of t, under the conditions after the loop.
    lemma SubmenuIsFirst(h0: Links, c0: Conds, d0: Marks, l0: seq<Id>, taken: seq<Tree>, gs: seq<Tree>, t: Tree,
                         rest: seq<Tree>, n: nat, par: Option<Id>)
      requires Valid() && t.kids == [] && t.id in e.sym && t.id !in Nodes(rest)
      requires InLoop(h0, c0, d0, l0, rest, n, taken, gs, par, t.id)
      requires forall i :: 0 <= i < |taken| ==> Joins(r, e, c0, t.id, taken[i].id)
      requires n < |rest| ==> !Joins(r, e, c0, t.id, rest[n].id)
      ensures IsFirst(r, e, conds, [t] + rest, Node(t.id, gs), n + 1) && taken == Topped(e, gs)
    {
      hide Finalized, Entered, Unfinished, Chain, Ids, OnlyAt, SymbolsAreLeaves, Joins, AreGroups, Inner, Nodes;
      ToppedIds(e, gs);
      forall i | 0 <= i < |gs| ensures Joins(r, e, conds, t.id, gs[i].id) {
        GroupTops(r, e, conds, rest, gs, n, i);
        var j :| 0 <= j < |rest| && rest[j].id == gs[i].id;
        TopUnchanged(h0, c0, d0, l0, taken, gs, par, t.id, rest, n, j);
      }
      if n < |rest| {
        TopUnchanged(h0, c0, d0, l0, taken, gs, par, t.id, rest, n, n);
      }
      assert ([t] + rest)[0] == t && ([t] + rest)[1..] == rest;
    }

    // The conditions that the test of the n-th entry reads are those at c0.
    lemma TestUnchanged(h0: Links, c0: Conds, d0: Marks, l0: seq<Id>, taken: seq<Tree>, gs: seq<Tree>,
                        par: Option<Id>, p: Id, rest: seq<Tree>, n: nat)
      requires Valid() && n < |rest| && p !in Nodes(rest)
      requires InLoop(h0, c0, d0, l0, rest, n, taken, gs, par, p)
      ensures Joins(r, e, conds, p, rest[n].id) == Joins(r, e, c0, p, rest[n].id)
    {
      TopUnchanged(h0, c0, d0, l0, taken, gs, par, p, rest, n, n);
    }

    lemma TopUnchanged(h0: Links, c0: Conds, d0: Marks, l0: seq<Id>, taken: seq<Tree>, gs: seq<Tree>,
                       par: Option<Id>, p: Id, rest: seq<Tree>, n: nat, j: nat)
      requires Valid() && j < |rest| && p !in Nodes(rest)
      requires InLoop(h0, c0, d0, l0, rest, n, taken, gs, par, p)
      ensures Joins(r, e, conds, p, rest[j].id) == Joins(r, e, c0, p, rest[j].id)
    {
      hide Entered, Unfinished, Chain, Ids, OnlyAt, SymbolsAreLeaves, AreGroups, Joins;
      assert rest == rest[..n] + rest[n..];
      InnerConcat(rest[..n], rest[n..]);
      InnerIsInNodes(rest);
      TopsAreApart(rest, j);
      assert SameCond(e, c0, conds, p) && SameCond(e, c0, conds, rest[j].id);
      SameTest(r, e, c0, conds, p, rest[j].id);
    }

    lemma SplitTop(t: Tree, rest: seq<Tree>, par: Option<Id>)
      requires Unfinished([t] + rest, par) && Entered()
      ensures Unfinished(rest, par) && Distinct(rest) && SymbolsAreLeaves(e, rest)
      ensures t.id !in Nodes(rest) && Get(links.next, t.id) == Head(rest, None)
      ensures Chain(links, [t] + rest, par, None) && Distinct([t] + rest) && |Ids(rest)| < |Ids([t] + rest)|
      ensures InLoop(links, conds, Done(), log, rest, 0, [], [], par, t.id)
    {
      hide Entered, InLoop;
      assert ([t] + rest)[0] == t && ([t] + rest)[1..] == rest;
      IdsCons(t, rest);
      LoopBegins(rest, par, t.id);
    }
  }
}
