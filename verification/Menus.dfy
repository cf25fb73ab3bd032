/** menu_finalize: conditions are propagated downwards, entries are moved into
    automatic submenus, and `if` blocks are flattened. */
module Menus {
  import opened Options
  import opened Exprs
  import opened ExprSimplify
  import opened ExprJoin
  import opened Kconfig
  import opened MenuConds
  import opened Submenus
  import opened MenuLinks

  type PropId = nat

  datatype PropDecl = PropDecl(menu: Id, kind: PropKind, target: Sym)

  /** The parts of menu nodes, properties and symbols that stay as they are. */
  datatype Entries = Entries(
    sym: map<Id, Sym>,
    prompt: map<Id, PropId>,
    props: map<PropId, PropDecl>,
    symProps: map<Sym, seq<PropId>>,
    modulesSym: Sym)
  {
    // The property list menu_finalize walks for a node.
    function PropsOf(x: Id): seq<PropId> {
      if x in sym then (if sym[x] in symProps then symProps[sym[x]] else [])
      else if x in prompt then [prompt[x]]
      else []
    }

    predicate Owns(x: Id, p: PropId) { p in PropsOf(x) && p in props && props[p].menu == x }

    // Only tristate symbols keep comparisons with n.
    predicate Relaxes(x: Id) { x in sym && !sym[x].Type().Tristate? }

    // The property list of x is a list of its own, and holds its prompt.
    ghost predicate ValidEntry(x: Id) {
      NoDup(PropsOf(x)) && (x in prompt ==> Owns(x, prompt[x]))
    }

    ghost predicate Valid() {
      forall x {:trigger ValidEntry(x)} :: ValidEntry(x)
    }
  }

  /** The dependencies of nodes and the conditions of properties. */
  datatype Conds = Conds(dep: map<Id, Expr>, visible: map<PropId, Expr>)
  {
    function Dep(x: Id): ExprPtr { if x in dep then Some(dep[x]) else None }

    function Visible(p: PropId): ExprPtr { if p in visible then Some(visible[p]) else None }

    function WithDep(x: Id, e: ExprPtr): Conds {
      this.(dep := if e.Some? then dep[x := e.value] else dep - {x})
    }

    function WithVisible(p: PropId, e: ExprPtr): Conds {
      this.(visible := if e.Some? then visible[p := e.value] else visible - {p})
    }
  }

  // The condition of a symbol's prompt, and the one its submenu test looks at.
  function PromptCond(e: Entries, c: Conds, x: Id): ExprPtr {
    if x in e.prompt then c.Visible(e.prompt[x]) else None
  }

  function EntryCond(e: Entries, c: Conds, x: Id): ExprPtr {
    if x in e.prompt then c.Visible(e.prompt[x]) else c.Dep(x)
  }

  // The conditions of node x and of its properties are the same in both.
  ghost predicate SameCond(e: Entries, c: Conds, d: Conds, x: Id) {
    c.Dep(x) == d.Dep(x) && forall p :: e.Owns(x, p) ==> c.Visible(p) == d.Visible(p)
  }

  lemma SameCondTransitive(e: Entries, a: Conds, b: Conds, c: Conds, x: Id)
    requires SameCond(e, a, b, x) && SameCond(e, b, c, x)
    ensures SameCond(e, a, c, x)
  {}

  ghost predicate CondsOnlyAt(e: Entries, c: Conds, d: Conds, ids: set<Id>) {
    forall x :: x !in ids ==> SameCond(e, c, d, x)
  }

  /** The rewriting of conditions, as values: from the parent's condition and
      the node's own, from the node's condition and that of a property (relaxed
      or not), and the submenu test of a symbol, its prompt and an entry. */
  datatype Rules = Rules(
    cond: (ExprPtr, ExprPtr) -> ExprPtr,
    prop: (ExprPtr, ExprPtr, bool) -> ExprPtr,
    joins: (Sym, ExprPtr, ExprPtr) -> bool)

  predicate IsCond(e: Entries, base: ExprPtr, own: ExprPtr, x: ExprPtr) {
    x == PropagateCond(base, own, e.modulesSym)
  }

  predicate IsProp(e: Entries, base: ExprPtr, own: ExprPtr, relax: bool, x: ExprPtr) {
    x == PropagateProp(base, own, e.modulesSym, relax)
  }

  predicate IsTest(s: Sym, base: ExprPtr, dep: ExprPtr, x: bool) {
    x == JoinsSubmenu(s, base, dep)
  }

  /** r holds the rules of expr.c for the entries e. */
  ghost predicate AreRules(r: Rules, e: Entries) {
    && (forall b, c {:trigger IsCond(e, b, c, r.cond(b, c))} :: IsCond(e, b, c, r.cond(b, c)))
    && (forall b, c, x {:trigger IsProp(e, b, c, x, r.prop(b, c, x))} :: IsProp(e, b, c, x, r.prop(b, c, x)))
    && (forall s, b, d {:trigger IsTest(s, b, d, r.joins(s, b, d))} :: IsTest(s, b, d, r.joins(s, b, d)))
  }

  // Entry x passes the submenu test of the symbol of p.
  predicate Joins(r: Rules, e: Entries, c: Conds, p: Id, x: Id) {
    p in e.sym && r.joins(e.sym[p], PromptCond(e, c, p), EntryCond(e, c, x))
  }

  function RulesOf(e: Entries): (r: Rules)
    ensures AreRules(r, e)
  {
    Rules((b, c) => PropagateCond(b, c, e.modulesSym),
          (b, c, x) => PropagateProp(b, c, e.modulesSym, x),
          JoinsSubmenu)
  }

  predicate PropSettled(r: Rules, e: Entries, c0: Conds, c: Conds, x: Id, p: PropId) {
    c.Visible(p) == r.prop(c.Dep(x), c0.Visible(p), e.Relaxes(x))
  }

  /** Node x carries the condition of its original parent `base` and its own,
      and so do its properties. c0 holds the conditions as parsed. */
  ghost predicate NodeSettled(r: Rules, e: Entries, c0: Conds, c: Conds, x: Id, base: Id) {
    && c.Dep(x) == r.cond(c.Dep(base), c0.Dep(x))
    && forall p :: e.Owns(x, p) ==> PropSettled(r, e, c0, c, x, p)
  }

  ghost predicate TopsSettled(r: Rules, e: Entries, c0: Conds, c: Conds, ts: seq<Tree>, base: Id) {
    forall i :: 0 <= i < |ts| ==> NodeSettled(r, e, c0, c, ts[i].id, base)
  }

  /** Everything below the trees of ts is settled. */
  ghost predicate InnerSettled(r: Rules, e: Entries, c0: Conds, c: Conds, ts: seq<Tree>) {
    ts == [] ||
    (TopsSettled(r, e, c0, c, ts[0].kids, ts[0].id) && InnerSettled(r, e, c0, c, ts[0].kids)
     && InnerSettled(r, e, c0, c, ts[1..]))
  }

  // The nodes below the tops of the trees.
  function Inner(ts: seq<Tree>): set<Id> {
    if ts == [] then {} else Nodes(ts[0].kids) + Inner(ts[1..])
  }

  // Symbols have no children before automatic submenus are made.
  predicate SymbolsAreLeaves(e: Entries, ts: seq<Tree>) {
    ts == [] ||
    ((ts[0].id in e.sym ==> ts[0].kids == []) && SymbolsAreLeaves(e, ts[0].kids) && SymbolsAreLeaves(e, ts[1..]))
  }

  lemma {:induction false} LeavesConcat(e: Entries, a: seq<Tree>, b: seq<Tree>)
    ensures SymbolsAreLeaves(e, a + b) <==> SymbolsAreLeaves(e, a) && SymbolsAreLeaves(e, b)
  {
    if a == [] {
      assert a + b == b;
    } else {
      assert (a + b)[0] == a[0] && (a + b)[1..] == a[1..] + b;
      LeavesConcat(e, a[1..], b);
    }
  }

  lemma {:induction false} InnerConcat(a: seq<Tree>, b: seq<Tree>)
    ensures Inner(a + b) == Inner(a) + Inner(b)
  {
    if a == [] {
      assert a + b == b;
    } else {
      assert (a + b)[0] == a[0] && (a + b)[1..] == a[1..] + b;
      InnerConcat(a[1..], b);
    }
  }

  lemma {:induction false} InnerSettledConcat(r: Rules, e: Entries, c0: Conds, c: Conds, a: seq<Tree>, b: seq<Tree>)
    ensures InnerSettled(r, e, c0, c, a + b) <==> InnerSettled(r, e, c0, c, a) && InnerSettled(r, e, c0, c, b)
  {
    if a == [] {
      assert a + b == b;
    } else {
      assert (a + b)[0] == a[0] && (a + b)[1..] == a[1..] + b;
      InnerSettledConcat(r, e, c0, c, a[1..], b);
    }
  }

  lemma {:induction false} InnerIsInNodes(ts: seq<Tree>)
    ensures Inner(ts) <= Nodes(ts)
  {
    if ts != [] {
      InnerIsInNodes(ts[1..]);
    }
  }

  lemma {:induction false} TopIsIn(ts: seq<Tree>, i: nat)
    requires i < |ts|
    ensures ts[i].id in Nodes(ts)
  {
    if i > 0 {
      TopIsIn(ts[1..], i - 1);
    }
  }

  /** The tops of distinct trees are distinct and not inside any of them. */
  lemma {:induction false} TopsAreApart(ts: seq<Tree>, i: nat)
    requires Distinct(ts) && i < |ts|
    ensures ts[i].id !in Inner(ts)
    ensures forall j :: 0 <= j < |ts| && j != i ==> ts[j].id != ts[i].id
  {
    var rest := ts[1..];
    InnerIsInNodes(rest);
    forall j | 1 <= j < |ts| ensures ts[j].id in Nodes(rest) {
      TopIsIn(rest, j - 1);
    }
    if i > 0 {
      TopsAreApart(rest, i - 1);
      assert forall j :: 1 <= j < |ts| ==> ts[j] == rest[j - 1];
    }
  }

  function Tops(ts: seq<Tree>): set<Id> { set i | 0 <= i < |ts| :: ts[i].id }

  lemma OneMoreTop(ts: seq<Tree>, i: nat)
    requires i < |ts|
    ensures Tops(ts[..i + 1]) == Tops(ts[..i]) + {ts[i].id}
  {
    assert ts[..i + 1] == ts[..i] + [ts[i]];
    forall j | 0 <= j < i ensures ts[j].id in Tops(ts[..i + 1]) {
      assert ts[..i + 1][j] == ts[j];
    }
    assert ts[..i + 1][i] == ts[i];
  }

  lemma TopsOutsideInner(ts: seq<Tree>)
    requires Distinct(ts)
    ensures Tops(ts) !! Inner(ts)
  {
    forall i | 0 <= i < |ts| ensures ts[i].id !in Inner(ts) {
      TopsAreApart(ts, i);
    }
  }

  /** The nodes are the tops and those below. */
  lemma {:induction false} TopsAndInner(ts: seq<Tree>)
    ensures Nodes(ts) == Tops(ts) + Inner(ts)
  {
    if ts != [] {
      TopsAndInner(ts[1..]);
      forall i | 1 <= i < |ts| ensures ts[i].id in Tops(ts[1..]) {
        assert ts[i] == ts[1..][i - 1];
      }
      forall i | 0 <= i < |ts| - 1 ensures ts[1..][i].id in Tops(ts) {
        assert ts[1..][i] == ts[i + 1];
      }
    }
  }

  /** Settled conditions stay settled if the conditions of their nodes stay. */
  lemma {:induction false} InnerSettledFrame(r: Rules, e: Entries, c0: Conds, c: Conds, d: Conds, ts: seq<Tree>)
    requires InnerSettled(r, e, c0, c, ts) && forall x :: x in Nodes(ts) ==> SameCond(e, c, d, x)
    ensures InnerSettled(r, e, c0, d, ts)
  {
    if ts != [] {
      var kids := ts[0].kids;
      assert SameCond(e, c, d, ts[0].id);
      forall i | 0 <= i < |kids| ensures NodeSettled(r, e, c0, d, kids[i].id, ts[0].id) {
        TopIsIn(kids, i);
        assert SameCond(e, c, d, kids[i].id);
        assert NodeSettled(r, e, c0, c, kids[i].id, ts[0].id);
      }
      InnerSettledFrame(r, e, c0, c, d, kids);
      InnerSettledFrame(r, e, c0, c, d, ts[1..]);
    }
  }

  /** Finalizing m + 1 more trees of ts after the first n. */
  lemma ConsumeMore(r: Rules, e: Entries, c0: Conds, old': Conds, c: Conds, d: Conds,
                    ts: seq<Tree>, n: nat, m: nat)
    requires Distinct(ts) && n + m <= |ts|
    requires InnerSettled(r, e, c0, c, ts[..n]) && CondsOnlyAt(e, old', c, Inner(ts[..n]))
    requires InnerSettled(r, e, c0, d, ts[n..n + m]) && CondsOnlyAt(e, c, d, Inner(ts[n..n + m]))
    ensures InnerSettled(r, e, c0, d, ts[..n + m]) && CondsOnlyAt(e, old', d, Inner(ts[..n + m]))
  {
    var a, b := ts[..n], ts[n..n + m];
    assert ts[..n + m] == a + b && ts == a + b + ts[n + m..];
    NodesConcat(a + b, ts[n + m..]);
    NodesConcat(a, b);
    InnerIsInNodes(b);
    InnerSettledFrame(r, e, c0, c, d, a);
    InnerSettledConcat(r, e, c0, d, a, b);
    InnerConcat(a, b);
    forall x | x !in Inner(a + b) ensures SameCond(e, old', d, x) {
      SameCondTransitive(e, old', c, d, x);
    }
  }
}
