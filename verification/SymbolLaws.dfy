/** What the calculation of a bool or tristate symbol comes to, in terms of its
    declaration: prompts, defaults, selects, implies and the direct dependency. */
module SymbolLaws {
  import opened Options
  import opened Exprs
  import opened Kconfig
  import opened SymbolValues

  // t is the highest condition of the prompts.
  ghost predicate IsHighestPrompt(props: seq<Property>, v: Valuation, t: Tri) {
    && (forall i :: 0 <= i < |props| && props[i].IsPrompt() ==> EvalPtr(props[i].visible, v) <= t)
    && (t == NO || exists i :: 0 <= i < |props| && props[i].IsPrompt() && EvalPtr(props[i].visible, v) == t)
  }

  // The property i is the first default whose condition is not n.
  ghost predicate IsFirstDefault(props: seq<Property>, v: Valuation, i: nat) {
    && i < |props| && props[i].kind.PDefault? && EvalPtr(props[i].visible, v) != NO
    && forall j :: 0 <= j < i && props[j].kind.PDefault? ==> EvalPtr(props[j].visible, v) == NO
  }

  // The symbol cannot be m: it is bool, or modules are off.
  predicate IsTwoValued(sys: System, s: Sym) {
    s.Type().Boolean? || (s.Type().Tristate? && sys.modules == NO)
  }

  // For such a symbol m counts as y.
  predicate Counts(twoValued: bool, t: Tri, r: Tri) {
    if t == MOD && twoValued then r == YES else r == t
  }

  lemma {:induction false} HighestPrompt(props: seq<Property>, v: Valuation)
    ensures IsHighestPrompt(props, v, PromptVisibility(props, v))
  {
    if props != [] {
      HighestPrompt(props[1..], v);
      assert forall i :: 0 < i < |props| ==> props[i] == props[1..][i - 1];
      var t := PromptVisibility(props[1..], v);
      if t != NO {
        var i :| 0 <= i < |props| - 1 && props[1..][i].IsPrompt() && EvalPtr(props[1..][i].visible, v) == t;
        assert props[i + 1] == props[1..][i];
      }
    }
  }

  lemma {:induction false} FirstDefault(props: seq<Property>, v: Valuation)
    ensures forall i: nat :: IsFirstDefault(props, v, i) ==> DefaultProp(props, v) == Some(props[i])
    ensures (forall i: nat :: !IsFirstDefault(props, v, i)) ==> DefaultProp(props, v) == None
    ensures DefaultProp(props, v).Some? ==> exists i: nat :: IsFirstDefault(props, v, i)
  {
    if props != [] {
      var rest := props[1..];
      FirstDefault(rest, v);
      assert forall i :: 0 < i < |props| ==> props[i] == rest[i - 1];
      if props[0].kind.PDefault? && EvalPtr(props[0].visible, v) != NO {
        assert IsFirstDefault(props, v, 0);
      } else {
        forall i: nat ensures IsFirstDefault(props, v, i) <==> i > 0 && IsFirstDefault(rest, v, i - 1) {
          assert i > 0 && IsFirstDefault(rest, v, i - 1) ==> IsFirstDefault(props, v, i);
        }
        if i: nat :| IsFirstDefault(rest, v, i) {
          assert IsFirstDefault(props, v, i + 1);
        }
      }
    }
  }

  /** The bounds: the highest prompt, the direct dependency, and the reverse and
      implied dependencies, which count as n where there are none. An implied
      dependency counts only where the direct one is met. */
  lemma BoundsOf(sys: System, user: UserValues, v: Valuation, s: Sym)
    ensures var t, d, b := StatusOf(sys, user, v, s), DeclOf(sys.cfg, s), IsTwoValued(sys, s);
      && (exists h :: IsHighestPrompt(d.props, v, h) && Counts(b, h, t.visible))
      && Counts(b, if d.dirDep.Some? then Eval(d.dirDep.value, v) else YES, t.dir)
      && Counts(b, if d.revDep.Some? then Eval(d.revDep.value, v) else NO, t.rev)
      && (if t.dir != NO && d.implied.Some? then Counts(b, Eval(d.implied.value, v), t.implied) else t.implied == NO)
  {
    HighestPrompt(DeclOf(sys.cfg, s).props, v);
  }

  // A chosen value is raised to the reverse dependency; m becomes y where m is not
  // possible or the symbol is implied by y.
  predicate IsRaised(b: bool, t: Status, chosen: Tri, r: Tri) {
    Counts(b || t.implied == YES, if chosen >= t.rev then chosen else t.rev, r)
  }

  // A symbol selected against its direct dependency is n.
  predicate Becomes(b: bool, t: Status, chosen: Tri, r: Tri) {
    if t.dir == NO && t.rev != NO then r == NO else IsRaised(b, t, chosen, r)
  }

  /** A visible symbol with a user value gets it, as far as it is visible. */
  lemma SetSymbolGets(sys: System, user: UserValues, v: Valuation, s: Sym)
    requires s in user && StatusOf(sys, user, v, s).visible != NO
    ensures var t := StatusOf(sys, user, v, s);
      && Becomes(IsTwoValued(sys, s), t, if user[s] <= t.visible then user[s] else t.visible, t.curr)
      && t.write
  {}

  /** Any other symbol gets the first default whose condition is not n, as far as
      that condition goes, or what implies it, whichever is higher; without such a
      default it gets what implies it. It is written to the file if it is visible,
      selected or implied, or has such a default. */
  lemma UnsetSymbolGets(sys: System, user: UserValues, v: Valuation, s: Sym)
    requires s !in user || StatusOf(sys, user, v, s).visible == NO
    ensures var t, d, b := StatusOf(sys, user, v, s), DeclOf(sys.cfg, s), IsTwoValued(sys, s);
      && (forall i: nat :: IsFirstDefault(d.props, v, i) ==>
            var x, c := EvalPtr(d.props[i].expr, v), EvalPtr(d.props[i].visible, v);
            var w: Tri := if x <= c then x else c;
            Becomes(b, t, if w >= t.implied then w else t.implied, t.curr) && t.write)
      && ((forall i: nat :: !IsFirstDefault(d.props, v, i)) ==>
            Becomes(b, t, t.implied, t.curr) && (t.write <==> t.visible != NO || t.rev != NO || t.implied != NO))
  {
    FirstDefault(DeclOf(sys.cfg, s).props, v);
  }

  /** The range test accepts exactly the values that raising leaves alone, of
      symbols that are visible beyond what selects them, up to the visibility. */
  lemma RangeIsExact(isBool: bool, t: Status, val: Tri)
    ensures WithinRange(isBool, t, val) <==>
      t.visible > t.rev && val <= t.visible && IsRaised(isBool, t, val, val)
  {}
}
