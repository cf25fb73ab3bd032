/** sym_check_deps: depth-first search for recursive dependencies. */
module DepCheck {
  import opened Options
  import opened Exprs
  import opened Graphs
  import opened Kconfig

  function SizePtr(e: ExprPtr): nat { if e.None? then 0 else Size(e.value) }

  /** The state of the search. `check` and `checked` are the symbols that carry
      SYMBOL_CHECK and SYMBOL_CHECKED: a symbol is white in neither, grey in
      both and black in `checked` only. `stack` is the list that check_top heads. */
  class Checker {
    const cfg: Config
    ghost const graph: Graph<Sym>  // the dependencies declared in cfg
    const recursiveIsError: bool
    var check: set<Sym>
    var checked: set<Sym>
    var stack: seq<Sym>

    ghost const universe: set<Sym>
    ghost var found: seq<Sym>      // the first cycle reported, if any
    ghost var rank: map<Sym, nat>  // the black symbols in order of completion

    ghost predicate Reported() reads this { found != [] }

    ghost predicate Closed() {
      Describes(graph, cfg) && forall s :: s in universe ==> graph(s) <= universe
    }

    /** The three-colour invariant, for a given path of grey symbols: until a
        cycle is reported, black symbols depend only on earlier black symbols. */
    ghost predicate Coloured(grey: seq<Sym>) reads this {
      && Closed()
      && check <= checked <= universe
      && (forall s :: s in check <==> s in grey)
      && (grey != [] ==> IsPath(graph, grey))
      && (Reported() ==> IsCycle(graph, found))
      && (!Reported() ==> rank.Keys == checked - check && Ranked(graph, rank))
    }

    ghost predicate Valid() reads this { Coloured(stack) }

    // s may be visited now: the symbol on top of the stack depends on it.
    ghost predicate Next(s: Sym) reads this {
      s in universe && (stack != [] ==> s in graph(stack[|stack| - 1]))
    }

    // What a visit keeps: the path, and everything already visited.
    twostate predicate Kept() reads this {
      && stack == old(stack) && check == old(check)
      && old(checked) <= checked
      && (old(Reported()) ==> found == old(found))
    }

    // What a returned symbol tells about the search.
    twostate predicate Outcome(new r: Option<Sym>) reads this {
      && (r.Some? ==> Reported())
      && (recursiveIsError && Reported() ==> r.Some? || old(Reported()))
      && (!recursiveIsError && r.Some? ==> r.value in stack)
    }

    constructor (cfg: Config, recursiveIsError: bool, ghost universe: set<Sym>)
      requires forall s :: s in universe ==> Edges(cfg, s) <= universe
      ensures graph == DependencyGraph(cfg)
      ensures Valid() && this.cfg == cfg && this.recursiveIsError == recursiveIsError
      ensures this.universe == universe && checked == {} && stack == [] && !Reported()
    {
      this.cfg, this.recursiveIsError, this.universe := cfg, recursiveIsError, universe;
      graph := DependencyGraph(cfg);
      check, checked, stack, found, rank := {}, {}, [], [], map[];
    }

    /** sym_check_print_recursive: the part of the stack it prints, from the
        symbol met again to the top. The symbol is always found there, and the
        printed symbols do form a cycle. */
    method PrintRecursive(last: Sym) returns (chain: seq<Sym>)
      requires Valid() && Next(last) && last in check
      ensures IsCycle(graph, chain + [last]) && |chain| <= |stack| && chain == stack[|stack| - |chain|..]
    {
      var i := |stack| - 1;
      while stack[i] != last
        invariant 0 <= i < |stack|
        invariant exists k :: 0 <= k <= i && stack[k] == last
        decreases i
      {
        i := i - 1;
      }
      chain := stack[i..];
      PathSuffix(graph, stack, i);
      ExtendPath(graph, chain, last);
    }

    method CheckDeps(sym: Sym) returns (r: Option<Sym>)
      requires Valid() && Next(sym)
      modifies this
      ensures Valid() && Kept() && Outcome(r)
      ensures sym in checked && (r.None? && !Reported() ==> sym in rank)
      decreases universe - checked, 0
    {
      if sym in check {
        var chain := PrintRecursive(sym);
        if !Reported() {
          found := chain + [sym];
        }
        return Some(sym);
      }
      if sym in checked {
        return None;
      }
      ghost var before, missing := checked, universe - checked;
      ExtendPath(graph, stack, sym);
      check, checked := check + {sym}, checked + {sym};
      assert universe - checked == missing - {sym};
      r := CheckSymDeps(sym);
      check := check - {sym};
      if r.None? && !Reported() {
        rank := RankLast(graph, rank, sym);
      }
      if !recursiveIsError && r == Some(sym) {
        r := None;
      }
    }

    method CheckSymDeps(sym: Sym) returns (r: Option<Sym>)
      requires Coloured(stack + [sym]) && sym in universe && sym !in stack
      modifies this
      ensures Coloured(stack + [sym]) && Kept() && (r.Some? ==> Reported())
      ensures recursiveIsError && Reported() ==> r.Some? || old(Reported())
      ensures !recursiveIsError && r.Some? ==> r.value in stack + [sym]
      ensures r.None? && !Reported() ==> graph(sym) <= rank.Keys
      decreases universe - checked, 2
    {
      var d := DeclOf(cfg, sym);
      DeclaredEdges(sym);
      stack := stack + [sym];
      r := CheckExprDeps(d.dirDep);
      if r.None? {
        r := CheckExprDeps(d.revDep);
        if r.None? {
          r := CheckExprDeps(d.implied);
          if r.None? {
            r := CheckPropsDeps(sym, d.props);
            OnlyDeclaredEdges(sym, rank.Keys);
          }
        }
      }
      stack := stack[..|stack| - 1];
    }

    lemma DeclaredEdges(s: Sym)
      requires Describes(graph, cfg)
      ensures var d := DeclOf(cfg, s);
        && SymsPtr(d.dirDep) <= graph(s) && SymsPtr(d.revDep) <= graph(s)
        && SymsPtr(d.implied) <= graph(s) && PropsSyms(d.props) <= graph(s)
    {
      assert AreEdges(cfg, s, graph(s));
    }

    lemma OnlyDeclaredEdges(s: Sym, k: set<Sym>)
      requires Describes(graph, cfg)
      ensures var d := DeclOf(cfg, s);
        SymsPtr(d.dirDep) <= k && SymsPtr(d.revDep) <= k && SymsPtr(d.implied) <= k && PropsSyms(d.props) <= k
        ==> graph(s) <= k
    {
      assert AreEdges(cfg, s, graph(s));
    }

    /** The loop of sym_check_sym_deps over the properties of the symbol. */
    method CheckPropsDeps(ghost sym: Sym, props: seq<Property>) returns (r: Option<Sym>)
      requires Valid() && stack != [] && sym == stack[|stack| - 1] && sym in universe
      requires props == DeclOf(cfg, sym).props
      modifies this
      ensures Valid() && Kept() && Outcome(r)
      ensures r.None? && !Reported() ==> PropsSyms(props) <= rank.Keys
      decreases universe - checked, 1, 1
    {
      var i := 0;
      r := None;
      while i < |props|
        invariant 0 <= i <= |props| && r.None?
        invariant Valid() && Kept() && Outcome(r)
        invariant !Reported() ==> forall k :: 0 <= k < i ==> PropSyms(props[k]) <= rank.Keys
      {
        var p := props[i];
        PropsSymsAt(props, i);
        DeclaredEdges(sym);
        if !p.kind.PChoice? && !p.kind.PSelect? && !p.kind.PImply? {
          r := CheckExprDeps(p.visible);
          if r.Some? {
            return;
          }
          if p.kind.PDefault? {
            r := CheckExprDeps(p.expr);
            if r.Some? {
              return;
            }
          }
        }
        i := i + 1;
      }
      if !Reported() {
        PropsSymsWithin(props, rank.Keys);
      }
    }

    method CheckExprDeps(e: ExprPtr) returns (r: Option<Sym>)
      requires Valid() && forall s :: s in SymsPtr(e) ==> Next(s)
      modifies this
      ensures Valid() && Kept() && Outcome(r)
      ensures r.None? && !Reported() ==> SymsPtr(e) <= rank.Keys
      decreases universe - checked, 1, 0, SizePtr(e)
    {
      if e.None? {
        return None;
      }
      match e.value
      case Bin(_, left, right) =>
        assert SymsPtr(e) == SymsPtr(Some(left)) + SymsPtr(Some(right));
        r := CheckExprDeps(Some(left));
        if r.None? {
          r := CheckExprDeps(Some(right));
        }
      case Not(arg) =>
        assert SymsPtr(e) == SymsPtr(Some(arg));
        r := CheckExprDeps(Some(arg));
      case Comp(_, lhs, rhs) =>
        assert SymsPtr(e) == {lhs, rhs};
        r := CheckDeps(lhs);
        if r.None? {
          r := CheckDeps(rhs);
        }
      case Symbol(sym) =>
        assert SymsPtr(e) == {sym};
        r := CheckDeps(sym);
    }

    /** conf_parse's loop over all symbols: how many of them are reported. */
    method CheckAll(table: seq<Sym>) returns (errors: nat)
      requires Valid() && stack == [] && checked == {} && !Reported()
      requires forall s :: s in table ==> s in universe
      requires cfg.Keys <= set s | s in table
      modifies this
      ensures Valid() && stack == []
      ensures Reported() <==> HasCycle(graph)
      ensures recursiveIsError ==> (errors == 0 <==> !HasCycle(graph))
      ensures !recursiveIsError ==> errors == 0
      ensures !HasCycle(graph) ==> Ranked(graph, rank) && cfg.Keys <= rank.Keys
    {
      errors := 0;
      for i := 0 to |table|
        invariant Valid() && stack == []
        invariant recursiveIsError ==> (errors > 0 <==> Reported())
        invariant !recursiveIsError ==> errors == 0
        invariant !Reported() ==> forall k :: 0 <= k < i ==> table[k] in rank
      {
        var r := CheckDeps(table[i]);
        if r.Some? {
          errors := errors + 1;
        }
      }
      if !Reported() {
        forall s | s !in rank ensures graph(s) == {} {
          assert AreEdges(cfg, s, graph(s));
        }
        RankedHasNoCycle(graph, rank);
      }
    }
  }

  // Every symbol that is declared or mentioned.
  ghost function Universe(cfg: Config): (u: set<Sym>)
    ensures cfg.Keys <= u && forall s :: Edges(cfg, s) <= u
  {
    var u := cfg.Keys + set s, t | s in cfg && t in Edges(cfg, s) :: t;
    assert forall s :: s !in cfg ==> Edges(cfg, s) == {};
    u
  }

  /** The check conf_parse makes once the menus are final. Without
      recursive_is_error it never fails; with it, it fails exactly for a cyclic
      configuration. In an acyclic one the search leaves a ranking behind. */
  method ConfParseCheck(cfg: Config, table: seq<Sym>, recursiveIsError: bool)
    returns (errors: nat, ghost rank: map<Sym, nat>)
    requires cfg.Keys == set s | s in table
    ensures recursiveIsError ==> (errors == 0 <==> !HasCycle(DependencyGraph(cfg)))
    ensures !recursiveIsError ==> errors == 0
    ensures !HasCycle(DependencyGraph(cfg)) ==>
      Ranked(DependencyGraph(cfg), rank) && cfg.Keys <= rank.Keys
  {
    var checker := new Checker(cfg, recursiveIsError, Universe(cfg));
    forall s | s in table ensures s in checker.universe {
      assert s in cfg.Keys;
    }
    errors := checker.CheckAll(table);
    rank := checker.rank;
  }
}
