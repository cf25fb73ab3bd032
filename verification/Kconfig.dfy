/** Declarations of configuration symbols and the graph of their dependencies
    (struct symbol, struct property and struct expr_value of expr.h). */
module Kconfig {
  import opened Options
  import opened Exprs
  import opened Graphs

  datatype PropKind =
    | PPrompt | PComment | PMenu | PDefault | PChoice | PSelect | PImply
    | PRange | PSymbol | PReset

  // `visible` is the condition of the property.
  datatype Property = Property(kind: PropKind, visible: ExprPtr, expr: ExprPtr)
  {
    // Prompts are the properties with a text.
    predicate IsPrompt() { kind.PPrompt? || kind.PComment? || kind.PMenu? }
  }

  datatype Decl = Decl(props: seq<Property>, dirDep: ExprPtr, revDep: ExprPtr, implied: ExprPtr)

  // A symbol that is mentioned but not declared has no properties.
  type Config = map<Sym, Decl>

  function DeclOf(cfg: Config, s: Sym): Decl {
    if s in cfg then cfg[s] else Decl([], None, None, None)
  }

  function SymsPtr(e: ExprPtr): set<Sym> {
    if e.None? then {} else Syms(e.value)
  }

  // What sym_check_sym_deps looks at in one property.
  function PropSyms(p: Property): set<Sym> {
    if p.kind.PChoice? || p.kind.PSelect? || p.kind.PImply? then {}
    else SymsPtr(p.visible) + (if p.kind.PDefault? then SymsPtr(p.expr) else {})
  }

  function PropsSyms(props: seq<Property>): set<Sym> {
    if props == [] then {} else PropSyms(props[0]) + PropsSyms(props[1..])
  }

  lemma {:induction false} PropsSymsAt(props: seq<Property>, i: nat)
    requires i < |props|
    ensures PropSyms(props[i]) <= PropsSyms(props)
  {
    if i > 0 {
      PropsSymsAt(props[1..], i - 1);
    }
  }

  lemma {:induction false} PropsSymsWithin(props: seq<Property>, s: set<Sym>)
    requires forall i :: 0 <= i < |props| ==> PropSyms(props[i]) <= s
    ensures PropsSyms(props) <= s
  {
    if props != [] {
      assert PropSyms(props[0]) <= s;
      PropsSymsWithin(props[1..], s);
    }
  }

  /** The symbols that s depends on. */
  function Edges(cfg: Config, s: Sym): set<Sym> {
    var d := DeclOf(cfg, s);
    SymsPtr(d.dirDep) + SymsPtr(d.revDep) + SymsPtr(d.implied) + PropsSyms(d.props)
  }

  function DependencyGraph(cfg: Config): Graph<Sym> {
    s => Edges(cfg, s)
  }

  ghost predicate AreEdges(cfg: Config, s: Sym, edges: set<Sym>) {
    edges == Edges(cfg, s)
  }

  ghost predicate Describes(g: Graph<Sym>, cfg: Config) {
    forall s {:trigger AreEdges(cfg, s, g(s))} :: AreEdges(cfg, s, g(s))
  }
}
