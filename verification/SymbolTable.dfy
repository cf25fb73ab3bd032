/** symbol.c: the memoising evaluator and the setter of tristate values. */
module SymbolTable {
  import opened Options
  import opened Exprs
  import opened ExprSimplify
  import opened Graphs
  import opened Kconfig
  import opened SymbolValues

  /** The fields of struct symbol that calculation writes: SYMBOL_VALID and the
      calculated values. */
  datatype State = State(valid: bool, status: Status)

  const UNKNOWN_STATE := State(false, Status(NO, NO, NO, NO, NO, false))

  class Table {
    const sys: System
    var user: UserValues
    var states: map<Sym, State>

    ghost const rank: map<Sym, nat>  // from the check for recursive dependencies

    constructor (sys: System, user: UserValues, ghost rank: map<Sym, nat>)
      ensures this.sys == sys && this.user == user && this.rank == rank
      ensures states == map[]
    {
      this.sys, this.user, this.rank, states := sys, user, rank, map[];
    }

    function StateOf(s: Sym): State
      reads this
    {
      if s in states then states[s] else UNKNOWN_STATE
    }

    // curr.tri; the static symbols are always valid.
    function Curr(s: Sym): Tri
      reads this
    {
      if s.Named? then StateOf(s).status.curr else StaticTri(s)
    }

    /** What is stored for s is its value among the values val. */
    ghost predicate Right(s: Sym, val: Sym -> Tri)
      reads this
    {
      if s.IsLogical() then StateOf(s).status == StatusOf(sys, user, Observe(sys, val), s)
      else s.Named? ==> StateOf(s).status.curr == NO
    }

    /** Below a level every valid symbol stores its value. */
    ghost predicate CachedBelow(k: nat, val: Sym -> Tri)
      reads this
    {
      forall s :: Level(rank, s) < k && StateOf(s).valid ==> Right(s, val)
    }

    ghost predicate Cached(val: Sym -> Tri)
      reads this
    {
      forall s :: StateOf(s).valid ==> Right(s, val)
    }

    // Neither symbols of level k and above nor valid ones are touched.
    twostate predicate Framed(k: nat)
      reads this
    {
      && user == old(user)
      && forall s :: Level(rank, s) >= k || old(StateOf(s)).valid ==> StateOf(s) == old(StateOf(s))
    }

    // The same, for a method at work on x.
    twostate predicate FramedExcept(k: nat, x: Sym)
      reads this
    {
      && user == old(user)
      && forall s :: s != x && (Level(rank, s) >= k || old(StateOf(s)).valid) ==>
           StateOf(s) == old(StateOf(s))
    }

    ghost predicate Ready(val: Sym -> Tri)
      reads this
    {
      Acyclic(sys, rank) && Solves(sys, user, val)
    }

    method SetStatus(sym: Sym, t: Status)
      modifies this
      ensures user == old(user)
      ensures StateOf(sym) == old(StateOf(sym)).(status := t)
      ensures forall s :: s != sym ==> StateOf(s) == old(StateOf(s))
    {
      states := states[sym := StateOf(sym).(status := t)];
    }

    // sym_get_string_value
    function StringValue(s: Sym): string
      reads this
    {
      if s.IsLogical() then
        (if Curr(s) == MOD && sys.modules == NO then "n" else TriText(Curr(s)))
      else if s.IsConst() then s.Name()
      else sys.text(s)
    }

    /** expr_calc_value */
    method ExprCalcValue(e: ExprPtr, ghost k: nat, ghost val: Sym -> Tri) returns (t: Tri)
      requires Ready(val) && CachedBelow(k, val)
      requires forall s :: s in SymsPtr(e) ==> Level(rank, s) < k
      modifies this
      ensures CachedBelow(k, val) && Framed(k)
      ensures t == EvalPtr(e, Observe(sys, val))
      decreases k, 0, if e.None? then 0 else Size(e.value)
    {
      if e.None? {
        return YES;
      }
      match e.value
      case Symbol(s) =>
        SymCalcValue(s, k, val);
        t := Curr(s);
      case Bin(op, left, right) =>
        var val1 := ExprCalcValue(Some(left), k, val);
        var val2 := ExprCalcValue(Some(right), k, val);
        t := Apply(op, val1, val2);
      case Not(arg) =>
        var val1 := ExprCalcValue(Some(arg), k, val);
        t := Negate(val1);
      case Comp(rel, lhs, rhs) =>
        SymCalcValue(lhs, k, val);
        SymCalcValue(rhs, k, val);
        var str1, str2 := StringValue(lhs), StringValue(rhs);
        assert str1 == TextOf(sys, val, lhs) && str2 == TextOf(sys, val, rhs);
        var res := CompareStrings(sys.parse, str1, lhs.Type(), str2, rhs.Type());
        t := Truth(Holds(rel, res));
    }

    /** sym_calc_value, called while symbols of level k and above may be
        under calculation. */
    method SymCalcValue(sym: Sym, ghost k: nat, ghost val: Sym -> Tri)
      requires Ready(val) && CachedBelow(k, val) && Level(rank, sym) < k
      modifies this
      ensures CachedBelow(k, val) && Framed(k)
      ensures Curr(sym) == val(sym) && (sym.Named? ==> StateOf(sym).valid)
      decreases k, 0, 0
    {
      assert Meets(sys, user, val, sym);
      if !sym.Named? || StateOf(sym).valid {
        return;
      }
      var oldState := StateOf(sym);
      states := states[sym := oldState.(valid := true)];
      if !sym.IsLogical() {
        SetStatus(sym, oldState.status.(curr := NO));
        return;
      }
      Calculate(sym, val);
    }

    /** The calculation of a symbol already marked valid. */
    method Calculate(sym: Sym, ghost val: Sym -> Tri)
      requires Ready(val) && CachedBelow(Level(rank, sym), val) && sym.IsLogical()
      modifies this
      ensures CachedBelow(Level(rank, sym), val) && FramedExcept(Level(rank, sym), sym)
      ensures StateOf(sym).valid == old(StateOf(sym)).valid && Right(sym, val)
      decreases Level(rank, sym), 5
    {
      SymCalcVisibility(sym, val);
      var t := StateOf(sym).status;
      SetStatus(sym, t.(curr := NO, write := t.visible != NO));
      t := SymCalcTristate(sym, val);
      SetStatus(sym, t);
    }

    /** sym_calc_visibility: the bounds on the value of sym. */
    method SymCalcVisibility(sym: Sym, ghost val: Sym -> Tri)
      requires Ready(val) && CachedBelow(Level(rank, sym), val) && sym.IsLogical()
      modifies this
      ensures CachedBelow(Level(rank, sym), val) && FramedExcept(Level(rank, sym), sym)
      ensures StateOf(sym).valid == old(StateOf(sym)).valid
      ensures HasBounds(StateOf(sym).status, sym, val)
      decreases Level(rank, sym), 4
    {
      ghost var d, v, b := DeclOf(sys.cfg, sym), Observe(sys, val), IsBool(sys, sym);
      CalcPromptAndDependency(sym, val);
      assert StateOf(sym).status.visible == Lift(b, PromptVisibility(d.props, v));
      assert StateOf(sym).status.dir == Lift(b, EvalPtr(d.dirDep, v));
      var tri := CalcReverseDependency(sym, DeclOf(sys.cfg, sym).revDep, true, val);
      SetStatus(sym, StateOf(sym).status.(rev := tri));
      tri := CalcReverseDependency(sym, DeclOf(sys.cfg, sym).implied, StateOf(sym).status.dir != NO, val);
      SetStatus(sym, StateOf(sym).status.(implied := tri));
    }

    method CalcPromptAndDependency(sym: Sym, ghost val: Sym -> Tri)
      requires Ready(val) && CachedBelow(Level(rank, sym), val)
      modifies this
      ensures CachedBelow(Level(rank, sym), val) && FramedExcept(Level(rank, sym), sym)
      ensures var d, v, b := DeclOf(sys.cfg, sym), Observe(sys, val), IsBool(sys, sym);
        StateOf(sym) == old(StateOf(sym)).(status := old(StateOf(sym)).status.(
          visible := Lift(b, PromptVisibility(d.props, v)), dir := Lift(b, EvalPtr(d.dirDep, v))))
      decreases Level(rank, sym), 3
    {
      var tri := CalcPrompts(sym, val);
      SetStatus(sym, StateOf(sym).status.(visible := tri));
      tri := CalcDependency(sym, val);
      SetStatus(sym, StateOf(sym).status.(dir := tri));
    }

    method CalcPrompts(sym: Sym, ghost val: Sym -> Tri) returns (tri: Tri)
      requires Ready(val) && CachedBelow(Level(rank, sym), val)
      modifies this
      ensures CachedBelow(Level(rank, sym), val) && Framed(Level(rank, sym))
      ensures tri == Lift(IsBool(sys, sym), PromptVisibility(DeclOf(sys.cfg, sym).props, Observe(sys, val)))
      decreases Level(rank, sym), 2
    {
      DeclIsLower(sym);
      tri := PromptsVisibility(sym, DeclOf(sys.cfg, sym).props, val);
      tri := Lift(IsBool(sys, sym), tri);
    }

    method CalcDependency(sym: Sym, ghost val: Sym -> Tri) returns (tri: Tri)
      requires Ready(val) && CachedBelow(Level(rank, sym), val)
      modifies this
      ensures CachedBelow(Level(rank, sym), val) && Framed(Level(rank, sym))
      ensures tri == Lift(IsBool(sys, sym), EvalPtr(DeclOf(sys.cfg, sym).dirDep, Observe(sys, val)))
      decreases Level(rank, sym), 1
    {
      DeclIsLower(sym);
      tri := ExprCalcValue(DeclOf(sys.cfg, sym).dirDep, Level(rank, sym), val);
      tri := Lift(IsBool(sys, sym), tri);
    }

    // rev_dep, or implied where the dependency allows it.
    method CalcReverseDependency(sym: Sym, e: ExprPtr, allowed: bool, ghost val: Sym -> Tri) returns (tri: Tri)
      requires Ready(val) && CachedBelow(Level(rank, sym), val)
      requires e == DeclOf(sys.cfg, sym).revDep || e == DeclOf(sys.cfg, sym).implied
      modifies this
      ensures CachedBelow(Level(rank, sym), val) && Framed(Level(rank, sym))
      ensures tri == Lift(IsBool(sys, sym), if allowed then EvalReverse(e, Observe(sys, val)) else NO)
      decreases Level(rank, sym), 1
    {
      DeclIsLower(sym);
      tri := NO;
      if e.Some? && allowed {
        tri := ExprCalcValue(e, Level(rank, sym), val);
      }
      tri := Lift(IsBool(sys, sym), tri);
    }

    // The bounds stored in t are those of sym.
    ghost predicate HasBounds(t: Status, sym: Sym, val: Sym -> Tri)
      reads this
    {
      var u := StatusOf(sys, user, Observe(sys, val), sym);
      t.visible == u.visible && t.dir == u.dir && t.rev == u.rev && t.implied == u.implied
    }

    lemma DeclIsLower(sym: Sym)
      requires Acyclic(sys, rank)
      ensures var d := DeclOf(sys.cfg, sym);
        forall s :: s in SymsPtr(d.dirDep) + SymsPtr(d.revDep) + SymsPtr(d.implied) + PropsSyms(d.props) ==>
          Level(rank, s) < Level(rank, sym)
    {
      assert DependsBelow(sys, rank, sym);
    }

    /** The loop over the prompts. */
    method PromptsVisibility(ghost sym: Sym, props: seq<Property>, ghost val: Sym -> Tri) returns (tri: Tri)
      requires Ready(val) && CachedBelow(Level(rank, sym), val)
      requires forall s :: s in PropsSyms(props) ==> Level(rank, s) < Level(rank, sym)
      modifies this
      ensures CachedBelow(Level(rank, sym), val) && Framed(Level(rank, sym))
      ensures tri == PromptVisibility(props, Observe(sys, val))
      decreases Level(rank, sym), 1
    {
      tri := NO;
      for i := 0 to |props|
        invariant CachedBelow(Level(rank, sym), val) && Framed(Level(rank, sym))
        invariant Max(tri, PromptVisibility(props[i..], Observe(sys, val)))
               == PromptVisibility(props, Observe(sys, val))
      {
        if props[i].IsPrompt() {
          PropsSymsAt(props, i);
          var visible := ExprCalcValue(props[i].visible, Level(rank, sym), val);
          tri := Max(tri, visible);
        }
      }
    }

    /** sym_get_default_prop */
    method SymGetDefaultProp(ghost sym: Sym, props: seq<Property>, ghost val: Sym -> Tri)
      returns (prop: Option<Property>, tri: Tri)
      requires Ready(val) && CachedBelow(Level(rank, sym), val)
      requires forall s :: s in PropsSyms(props) ==> Level(rank, s) < Level(rank, sym)
      modifies this
      ensures CachedBelow(Level(rank, sym), val) && Framed(Level(rank, sym))
      ensures prop == DefaultProp(props, Observe(sys, val))
      ensures prop.Some? ==> prop.value in props && prop.value.kind.PDefault?
      ensures prop.Some? ==> tri == EvalPtr(prop.value.visible, Observe(sys, val))
      decreases Level(rank, sym), 1
    {
      for i := 0 to |props|
        invariant CachedBelow(Level(rank, sym), val) && Framed(Level(rank, sym))
        invariant DefaultProp(props[i..], Observe(sys, val)) == DefaultProp(props, Observe(sys, val))
      {
        if props[i].kind.PDefault? {
          PropsSymsAt(props, i);
          tri := ExprCalcValue(props[i].visible, Level(rank, sym), val);
          if tri != NO {
            return Some(props[i]), tri;
          }
        }
      }
      prop, tri := None, NO;
    }

    /** The bool and tristate part of sym_calc_value, once the bounds are known. */
    method SymCalcTristate(sym: Sym, ghost val: Sym -> Tri) returns (t: Status)
      requires Ready(val) && CachedBelow(Level(rank, sym), val) && sym.IsLogical()
      requires HasBounds(StateOf(sym).status, sym, val)
      requires StateOf(sym).status.write == (StateOf(sym).status.visible != NO)
      modifies this
      ensures CachedBelow(Level(rank, sym), val) && Framed(Level(rank, sym))
      ensures t == StatusOf(sys, user, Observe(sys, val), sym)
      decreases Level(rank, sym), 2
    {
      var props := DeclOf(sys.cfg, sym).props;
      var newval := NO;
      t := StateOf(sym).status;
      DeclIsLower(sym);
      if t.visible != NO && sym in user {
        newval := Min(user[sym], t.visible);
      } else {
        if t.rev != NO {
          t := t.(write := true);
        }
        var prop, tri := SymGetDefaultProp(sym, props, val);
        if prop.Some? {
          t := t.(write := true);
          DefaultSyms(props, prop.value);
          var value := ExprCalcValue(prop.value.expr, Level(rank, sym), val);
          newval := Min(value, tri);
        }
        if t.implied != NO {
          t := t.(write := true);
          newval := Max(newval, t.implied);
        }
      }
      if t.dir == NO && t.rev != NO {
        newval := NO;
      } else {
        newval := Max(newval, t.rev);
      }
      if newval == MOD && (IsBool(sys, sym) || t.implied == YES) {
        newval := YES;
      }
      t := t.(curr := newval);
    }

    // ---------- entry points ----------

    /** Evaluating one symbol from any state of the cache: it gets its value and
        the cache stays right, whatever is valid already. */
    method Evaluate(sym: Sym, ghost val: Sym -> Tri)
      requires Ready(val) && Cached(val)
      modifies this
      ensures user == old(user) && Cached(val)
      ensures Curr(sym) == val(sym) && (sym.Named? ==> StateOf(sym).valid)
      ensures forall s :: old(StateOf(s)).valid ==> StateOf(s) == old(StateOf(s))
    {
      SymCalcValue(sym, Level(rank, sym) + 1, val);
    }

    /** Evaluating symbols in any order, as conf_read does with the hash table. */
    method EvaluateAll(order: seq<Sym>, ghost val: Sym -> Tri)
      requires Ready(val) && Cached(val)
      modifies this
      ensures user == old(user) && Cached(val)
      ensures forall s :: s in order ==> Curr(s) == val(s)
    {
      for i := 0 to |order|
        invariant user == old(user) && Cached(val)
        invariant forall k :: 0 <= k < i && order[k].Named? ==> StateOf(order[k]).valid
      {
        Evaluate(order[i], val);
      }
      forall s | s in order ensures Curr(s) == val(s) {
        ValidIsValue(s, val);
      }
    }

    lemma ValidIsValue(s: Sym, val: Sym -> Tri)
      requires Ready(val) && Cached(val) && (s.Named? ==> StateOf(s).valid)
      ensures Curr(s) == val(s)
    {
      assert Meets(sys, user, val, s);
    }

    /** sym_clear_all_valid; modules_val is fixed. */
    method ClearAllValid()
      modifies this
      ensures user == old(user)
      ensures forall s :: StateOf(s) == old(StateOf(s)).(valid := false)
    {
      states := map s | s in states :: states[s].(valid := false);
    }

    /** sym_set_tristate_value. An accepted change is what the symbol evaluates
        to next, unless the symbol was selected against an unmet dependency; a
        refused one changes nothing. */
    method SetTristateValue(sym: Sym, tri: Tri, ghost val: Sym -> Tri) returns (accepted: bool)
      requires Ready(val) && Cached(val) && sym.IsLogical() && StateOf(sym).valid
      modifies this
      ensures accepted <==>
        tri == val(sym) || WithinRange(IsBool(sys, sym), StatusOf(sys, old(user), Observe(sys, val), sym), tri)
      ensures !accepted ==> user == old(user) && states == old(states)
      ensures accepted ==> user == old(user)[sym := tri]
      ensures accepted && tri == val(sym) ==> states == old(states)
      ensures accepted && tri != val(sym) ==> forall s :: !StateOf(s).valid
      ensures accepted && tri != val(sym) ==>
        var t := StatusOf(sys, old(user), Observe(sys, val), sym);
        forall val' :: Solves(sys, user, val') ==> (val'(sym) == tri <==> !(t.dir == NO && t.rev != NO))
    {
      ValidIsValue(sym, val);
      var oldval := Curr(sym);
      if oldval != tri && !WithinRange(IsBool(sys, sym), StateOf(sym).status, tri) {
        return false;
      }
      user := user[sym := tri];
      if oldval != tri {
        ClearAllValid();
        forall val' | Solves(sys, user, val')
          ensures var t := StatusOf(sys, old(user), Observe(sys, val), sym);
            val'(sym) == tri <==> !(t.dir == NO && t.rev != NO)
        {
          ChangeSticks(sys, rank, old(user), val, val', sym, tri);
        }
      }
      accepted := true;
    }
  }

  lemma DefaultSyms(props: seq<Property>, p: Property)
    requires p in props && p.kind.PDefault?
    ensures SymsPtr(p.expr) <= PropsSyms(props)
  {
    var i :| 0 <= i < |props| && props[i] == p;
    PropsSymsAt(props, i);
  }
}
