/** The macro expander of preprocess.c, with a counter in every variable. */
module Preprocess {
  import opened Options
  import opened Expansion

  class Variable {
    const name: string
    var value: string
    var flavor: Flavor
    var expCount: nat

    constructor (name: string, value: string, flavor: Flavor)
      ensures this.name == name && this.value == value && this.flavor == flavor && expCount == 0
    {
      this.name, this.value, this.flavor, this.expCount := name, value, flavor, 0;
    }
  }

  class Preprocessor {
    const host: Host
    var variables: seq<Variable>

    constructor (host: Host)
      ensures this.host == host && variables == [] && Holds(World([], host), [])
    {
      this.host, this.variables := host, [];
    }

    ghost function Objects(): set<Variable>
      reads this`variables
    {
      set v | v in variables
    }

    /** The variables are those of w, and c holds their counts. */
    ghost predicate Holds(w: World, c: seq<nat>)
      reads this`variables, Objects()
      ensures Holds(w, c) ==> |c| == |w.defs|
    {
      && |variables| == |w.defs| == |c| && w.host == host
      && (forall i :: 0 <= i < |c| ==> IsVariable(variables[i], w.defs[i], c[i]))
      && (forall i, j :: 0 <= i < j < |c| ==> variables[i] != variables[j])
    }

    ghost predicate IsVariable(v: Variable, d: Def, n: nat)
      reads v
    {
      v.name == d.name && v.value == d.value && v.flavor == d.flavor && v.expCount == n
    }

    // variable_lookup
    method VariableLookup(name: string, ghost w: World, ghost c: seq<nat>) returns (i: Option<nat>)
      requires Holds(w, c)
      ensures i == Lookup(w.defs, name)
    {
      hide Lookup;
      assert w.defs[0..] == w.defs;
      for j := 0 to |variables|
        invariant Lookup(w.defs, name) == MapSome(j, Lookup(w.defs[j..], name))
      {
        LookupStep(w.defs, name, j);
        assert IsVariable(variables[j], w.defs[j], c[j]);
        if variables[j].name == name {
          return Some(j);
        }
      }
      LookupEnd(w.defs, name);
      return None;
    }

    /** variable_expand. Like all methods of expansion, it computes what the
        function of the same name says, it ends, and unless it ends the program
        it leaves all counts as they were. */
    method VariableExpand(name: string, argv: seq<string>, ghost w: World, ghost c: seq<nat>)
      returns (r: Outcome<Option<string>>)
      requires Holds(w, c)
      modifies Objects()`expCount
      ensures r == ExpandVariable(w, c, name, argv)
      ensures r.Ok? ==> Holds(w, c)
      decreases Budget(c), 0, 1, 0
    {
      hide Expand, ExpandUntil, Dollar, Clause, ExpandAll, Call, Budget, Lookup;
      var i := VariableLookup(name, w, c);
      if i.None? {
        return Ok(None);
      }
      var v := variables[i.value];
      if |argv| == 0 && v.expCount != 0 {
        return Err(RecursiveVariable(name));
      }
      if v.expCount > MAX_DEPTH {
        return Err(TooDeep);
      }
      v.expCount := v.expCount + 1;
      var res: string;
      if v.flavor == Recursive {
        EnteringCosts(c, i.value);
        var x := ExpandString(v.value, argv, w, Entered(c, i.value));
        if x.Err? {
          return Err(x.error);
        }
        res := x.value;
      } else {
        res := v.value;
      }
      v.expCount := v.expCount - 1;
      return Ok(Some(res));
    }

    // expand_string_with_args
    method ExpandString(s: string, argv: seq<string>, ghost w: World, ghost c: seq<nat>)
      returns (r: Outcome<string>)
      requires Holds(w, c)
      modifies Objects()`expCount
      ensures r == Expand(w, c, s, argv)
      ensures r.Ok? ==> Holds(w, c)
      decreases Budget(c), |s|, 0, 1
    {
      var x := ExpandStringUntil(s, _ => false, argv, w, c);
      match x
      case Err(e) => return Err(e);
      case Ok((out, _)) => return Ok(out);
    }

    /** __expand_string; the rest of the text is s[end..]. */
    method ExpandStringUntil(s: string, isEnd: char -> bool, argv: seq<string>, ghost w: World, ghost c: seq<nat>)
      returns (r: Outcome<(string, string)>)
      requires Holds(w, c)
      modifies Objects()`expCount
      ensures r == ExpandUntil(w, c, s, isEnd, argv)
      ensures r.Ok? ==> Holds(w, c)
      decreases Budget(c), |s|, 0, 0
    {
      hide Holds, Expand, ExpandUntil, Prepend, Dollar, Clause, ExpandAll, Call, ExpandVariable, Budget;
      var start: nat, p: nat, out := 0, 0, "";
      ghost var whole, rest := ExpandUntil(w, c, s, isEnd, argv), ExpandUntil(w, c, s, isEnd, argv);
      Prepended("", "", rest);
      assert s[0..] == s;
      while p < |s|
        invariant start <= p <= |s| && Holds(w, c)
        invariant rest == ExpandUntil(w, c, s[p..], isEnd, argv)
        invariant whole == Prepend(out + s[start..p], rest)
        decreases |s| - p
      {
        UntilStep(w, c, s, p, isEnd, argv);
        if s[p] == '$' {
          var x := ExpandDollar(s[p + 1..], argv, w, c);
          if x.Err? {
            PrependError(out + s[start..p], x.error);
            return Err(x.error);
          }
          DollarRest(w, c, s[p + 1..], argv);
          rest := ExpandUntil(w, c, x.value.1, isEnd, argv);
          Prepended(out + s[start..p], x.value.0, rest);
          out := out + s[start..p] + x.value.0;
          p := |s| - |x.value.1|;
          start := p;
          assert out + s[start..p] == out;
        } else {
          if isEnd(s[p]) {
            break;
          }
          rest := ExpandUntil(w, c, s[p + 1..], isEnd, argv);
          Prepended(out + s[start..p], [s[p]], rest);
          assert out + s[start..p] + [s[p]] == out + s[start..p + 1];
          p := p + 1;
        }
      }
      if p == |s| {
        UntilEnd(w, c, s, isEnd, argv);
      }
      PrependToNothing(out + s[start..p], s[p..]);
      return Ok((out + s[start..p], s[p..]));
    }

    // expand_dollar_with_args
    method ExpandDollar(s: string, argv: seq<string>, ghost w: World, ghost c: seq<nat>)
      returns (r: Outcome<(string, string)>)
      requires Holds(w, c)
      modifies Objects()`expCount
      ensures r == Dollar(w, c, s, argv)
      ensures r.Ok? ==> Holds(w, c)
      decreases Budget(c), |s|, 3, 0
    {
      if s == "" || s[0] != '(' {
        return Ok(("$", s));
      }
      var q := FindClose(s);
      hide Holds, Expand, ExpandUntil, Clause, ExpandAll, Call, ExpandVariable, Budget, Close;
      if q == |s| {
        return Err(UnterminatedReference(s[1..]));
      }
      var x := EvalClause(s[1..q], argv, w, c);
      match x
      case Err(e) => return Err(e);
      case Ok(y) => return Ok((y, s[q + 1..]));
    }

    // eval_clause
    method EvalClause(tmp: string, argv: seq<string>, ghost w: World, ghost c: seq<nat>)
      returns (r: Outcome<string>)
      requires Holds(w, c)
      modifies Objects()`expCount
      ensures r == Clause(w, c, tmp, argv)
      ensures r.Ok? ==> Holds(w, c)
      decreases Budget(c), |tmp|, 2, 0
    {
      hide Expand, ExpandUntil, Dollar, ExpandAll, Call, ExpandVariable, Budget, Tokens;
      var n := host.number(tmp);
      if n.Some? && 0 < n.value <= |argv| {
        return Ok(argv[n.value - 1]);
      }
      var newArgv, newArgc, tooMany := SplitTokens(tmp);
      if tooMany.Some? {
        return Err(tooMany.value);
      }
      ghost var ts := newArgv[..newArgc];
      var name := ExpandString(newArgv[0], argv, w, c);
      if name.Err? {
        return Err(name.error);
      }
      newArgc := newArgc - 1;
      var error := ExpandArguments(newArgv, newArgc, argv, w, c, |tmp|);
      match error
      case Some(e) => return Err(e);
      case None => r := CallFunction(name.value, newArgv[..newArgc], w, c);
    }

    // Shifts and expands the arguments.
    method ExpandArguments(newArgv: array<string>, newArgc: nat, argv: seq<string>,
                           ghost w: World, ghost c: seq<nat>, ghost bound: nat)
      returns (error: Option<Error>)
      requires Holds(w, c) && newArgc < newArgv.Length
      requires forall t :: t in newArgv[1..newArgc + 1] ==> |t| <= bound
      modifies newArgv, Objects()`expCount
      ensures var x := ExpandAll(w, c, old(newArgv[1..newArgc + 1]), argv, bound);
        match error case Some(e) => x == Err(e) case None => x == Ok(newArgv[..newArgc])
      ensures error.None? ==> Holds(w, c)
      decreases Budget(c), bound, 1, newArgc
    {
      hide *;
      ghost var ts := newArgv[1..newArgc + 1];
      var i := 0;
      NoArguments(w, c, ts, argv, bound);
      while i < newArgc
        invariant i <= newArgc && Holds(w, c)
        invariant forall j :: i < j <= newArgc ==> newArgv[j] == ts[j - 1]
        invariant ExpandAll(w, c, ts[..i], argv, bound) == Ok(newArgv[..i])
      {
        assert ts[i] in ts;
        var x := ExpandString(newArgv[i + 1], argv, w, c);
        OneMore(w, c, ts, i, argv, bound);
        if x.Err? {
          FirstError(w, c, ts, i + 1, argv, bound);
          return Some(x.error);
        }
        ghost var before := newArgv[..i];
        newArgv[i] := x.value;
        i := i + 1;
        assert newArgv[..i] == before + [x.value];
      }
      assert ts[..i] == ts;
      return None;
    }

    // The end of eval_clause.
    method CallFunction(name: string, args: seq<string>, ghost w: World, ghost c: seq<nat>)
      returns (r: Outcome<string>)
      requires Holds(w, c)
      modifies Objects()`expCount
      ensures r == Call(w, c, name, args)
      ensures r.Ok? ==> Holds(w, c)
      decreases Budget(c), 0, 1, 1
    {
      var v := VariableExpand(name, args, w, c);
      match v
      case Err(e) => return Err(e);
      case Ok(Some(x)) => return Ok(x);
      case Ok(None) => return Fallback(host, name, args);
    }
  }

  lemma LookupStep(defs: seq<Def>, name: string, j: nat)
    requires j < |defs|
    ensures Lookup(defs[j..], name)
         == if defs[j].name == name then Some(0) else MapSome(1, Lookup(defs[j + 1..], name))
  {
    assert defs[j..][1..] == defs[j + 1..] && defs[j..][0] == defs[j];
  }

  lemma LookupEnd(defs: seq<Def>, name: string)
    ensures Lookup(defs[|defs|..], name) == None
  {
    assert defs[|defs|..] == [];
  }

  lemma Prepended(x: string, y: string, r: Outcome<(string, string)>)
    ensures Prepend(x, Prepend(y, r)) == Prepend(x + y, r)
    ensures Prepend("", r) == r
  {
    if r.Ok? {
      assert x + (y + r.value.0) == x + y + r.value.0 && "" + r.value.0 == r.value.0;
    }
  }

  lemma PrependError(x: string, e: Error)
    ensures Prepend(x, Err(e)) == Err(e)
  {}

  lemma PrependToNothing(x: string, rest: string)
    ensures Prepend(x, Ok(("", rest))) == Ok((x, rest))
  {
    assert x + "" == x;
  }

  // One step of __expand_string, at position p.
  lemma UntilStep(w: World, c: seq<nat>, s: string, p: nat, stop: char -> bool, args: seq<string>)
    requires |c| == |w.defs| && p < |s|
    ensures var d, u := Dollar(w, c, s[p + 1..], args), ExpandUntil(w, c, s[p..], stop, args);
      if s[p] == '$' then
        (d.Err? ==> u == Err(d.error))
        && (d.Ok? ==> u == Prepend(d.value.0, ExpandUntil(w, c, d.value.1, stop, args)))
      else if stop(s[p]) then u == Ok(("", s[p..]))
      else u == Prepend([s[p]], ExpandUntil(w, c, s[p + 1..], stop, args))
  {
    hide Dollar, Prepend, Budget;
    assert s[p..][1..] == s[p + 1..] && s[p..][0] == s[p];
  }

  lemma UntilEnd(w: World, c: seq<nat>, s: string, stop: char -> bool, args: seq<string>)
    requires |c| == |w.defs|
    ensures ExpandUntil(w, c, s[|s|..], stop, args) == Ok(("", s[|s|..]))
  {
    assert s[|s|..] == "";
  }

  // What is left after a reference is a suffix of the text.
  lemma DollarRest(w: World, c: seq<nat>, s: string, args: seq<string>)
    requires |c| == |w.defs|
    ensures var r := Dollar(w, c, s, args);
      r.Ok? ==> r.value.1 == s[|s| - |r.value.1|..]
  {}

  lemma NoArguments(w: World, c: seq<nat>, ts: seq<string>, args: seq<string>, bound: nat)
    requires |c| == |w.defs|
    ensures ExpandAll(w, c, ts[..0], args, bound) == Ok([])
  {}

  lemma OneMore(w: World, c: seq<nat>, ts: seq<string>, i: nat, args: seq<string>, bound: nat)
    requires |c| == |w.defs| && i < |ts| && forall t :: t in ts ==> |t| <= bound
    requires ExpandAll(w, c, ts[..i], args, bound).Ok?
    ensures ExpandAll(w, c, ts[..i + 1], args, bound)
         == match Expand(w, c, ts[i], args)
            case Err(e) => Err(e)
            case Ok(x) => Ok(ExpandAll(w, c, ts[..i], args, bound).value + [x])
  {
    hide Expand;
    assert ts[..i + 1][..i] == ts[..i];
  }

  // An error in the first n arguments is that of all of them.
  lemma {:induction false} FirstError(w: World, c: seq<nat>, ts: seq<string>, n: nat, args: seq<string>, bound: nat)
    requires |c| == |w.defs| && n <= |ts| && forall t :: t in ts ==> |t| <= bound
    requires ExpandAll(w, c, ts[..n], args, bound).Err?
    ensures ExpandAll(w, c, ts, args, bound) == ExpandAll(w, c, ts[..n], args, bound)
  {
    if n < |ts| {
      var m := |ts| - 1;
      assert ts[..m][..n] == ts[..n];
      FirstError(w, c, ts[..m], n, args, bound);
    } else {
      assert ts[..n] == ts;
    }
  }

  // The loop of expand_dollar_with_args.
  method FindClose(s: string) returns (q: nat)
    requires s != ""
    ensures 1 <= q <= |s| && Close(s[1..], 0) == if q == |s| then None else Some(q - 1)
  {
    hide Close;
    q := 1;
    var nest := 0;
    while q < |s|
      invariant 1 <= q <= |s| && nest >= 0
      invariant Close(s[1..], 0) == MapSome(q - 1, Close(s[q..], nest))
    {
      CloseStep(s, q, nest);
      if s[q] == '(' {
        nest := nest + 1;
      } else if s[q] == ')' {
        if nest == 0 {
          return;
        }
        nest := nest - 1;
      }
      q := q + 1;
    }
    assert s[q..] == "";
    NothingCloses(nest);
  }

  // One character of that loop.
  lemma CloseStep(s: string, q: nat, nest: nat)
    requires q < |s|
    ensures Close(s[q..], nest) == if s[q] == ')' && nest == 0 then Some(0)
      else MapSome(1, Close(s[q + 1..], if s[q] == '(' then nest + 1 else if s[q] == ')' then nest - 1 else nest))
  {
    assert s[q..][1..] == s[q + 1..] && s[q..][0] == s[q];
  }

  lemma NothingCloses(nest: nat)
    ensures Close("", nest) == None
  {}

  function MapSome(k: nat, x: Option<nat>): Option<nat> {
    if x.Some? then Some(k + x.value) else None
  }

  // ---------- splitting a clause ----------

  lemma AttachAgain(x: string, y: string, ts: seq<string>)
    requires |ts| > 0
    ensures Attach(x, Attach(y, ts)) == Attach(x + y, ts) && Attach("", ts) == ts
  {
    assert x + (y + ts[0]) == x + y + ts[0] && "" + ts[0] == ts[0];
  }

  // Up to p, the tokens in `done` are complete and one begins at prev.
  ghost predicate Splits(tmp: string, done: seq<string>, prev: nat, p: nat, nest: int) {
    && prev <= p <= |tmp|
    && Tokens(tmp, 0) == done + Attach(tmp[prev..p], Tokens(tmp[p..], nest))
  }

  lemma SplitsAtStart(tmp: string)
    ensures Splits(tmp, [], 0, 0, 0)
  {
    hide Tokens;
    assert tmp[0..] == tmp;
    AttachAgain("", "", Tokens(tmp, 0));
  }

  lemma SplitsAtComma(tmp: string, done: seq<string>, prev: nat, p: nat)
    requires Splits(tmp, done, prev, p, 0) && p < |tmp| && tmp[p] == ','
    ensures Splits(tmp, done + [tmp[prev..p]], p + 1, p + 1, 0) && |Tokens(tmp, 0)| > |done| + 1
  {
    var x, rest := tmp[prev..p], Tokens(tmp[p + 1..], 0);
    assert tmp[p..][1..] == tmp[p + 1..] && tmp[p..][0] == ',';
    assert Tokens(tmp[p..], 0) == [""] + rest;
    hide Tokens;
    AttachAgain("", "", rest);
    assert x + "" == x && Attach(x, [""] + rest) == [x] + rest;
  }

  lemma TokensStep(tmp: string, p: nat, nest: int)
    requires p < |tmp| && !(nest == 0 && tmp[p] == ',')
    ensures Tokens(tmp[p..], nest) == Attach([tmp[p]], Tokens(tmp[p + 1..], Nest(nest, tmp[p])))
  {
    hide Attach, Nest;
    assert tmp[p..][1..] == tmp[p + 1..];
  }

  lemma SplitsNext(tmp: string, done: seq<string>, prev: nat, p: nat, nest: int)
    requires Splits(tmp, done, prev, p, nest) && p < |tmp| && !(nest == 0 && tmp[p] == ',')
    ensures Splits(tmp, done, prev, p + 1, Nest(nest, tmp[p]))
  {
    var rest := Tokens(tmp[p + 1..], Nest(nest, tmp[p]));
    hide Tokens, Attach, Nest;
    TokensStep(tmp, p, nest);
    NextPart(tmp, prev, p);
    AttachAgain(tmp[prev..p], [tmp[p]], rest);
  }

  lemma NextPart(tmp: string, prev: nat, p: nat)
    requires prev <= p < |tmp|
    ensures tmp[prev..p] + [tmp[p]] == tmp[prev..p + 1]
  {}

  lemma SplitsAtEnd(tmp: string, done: seq<string>, prev: nat, nest: int)
    requires Splits(tmp, done, prev, |tmp|, nest)
    ensures Tokens(tmp, 0) == done + [tmp[prev..]]
  {
    hide Tokens, Attach;
    NoMoreTokens(nest);
    assert tmp[|tmp|..] == "" && tmp[prev..|tmp|] == tmp[prev..];
    LastToken(tmp[prev..]);
  }

  lemma NoMoreTokens(nest: int)
    ensures Tokens("", nest) == [""]
  {}

  lemma LastToken(x: string)
    ensures Attach(x, [""]) == [x]
  {
    assert x + "" == x && [""][1..] == [];
  }

  /** The loop of eval_clause over the text. Its test comes before the store of
      every token but the last; where that one would be stored beyond the array,
      the error is ArrayOverrun. */
  method SplitTokens(tmp: string) returns (newArgv: array<string>, newArgc: nat, error: Option<Error>)
    ensures fresh(newArgv) && newArgv.Length == MAX_ARGS
    ensures error.None? ==> 0 < newArgc <= MAX_ARGS && newArgv[..newArgc] == Tokens(tmp, 0)
    ensures error == if |Tokens(tmp, 0)| > MAX_ARGS + 1 then Some(TooManyArguments)
                     else if |Tokens(tmp, 0)| > MAX_ARGS then Some(ArrayOverrun)
                     else None
  {
    hide Tokens, Splits;
    newArgv, newArgc := new string[MAX_ARGS], 0;
    var prev, p, nest := 0, 0, 0;
    ghost var done := [];
    SplitsAtStart(tmp);
    while p < |tmp|
      invariant 0 <= prev <= p <= |tmp| && newArgc <= MAX_ARGS
      invariant done == newArgv[..newArgc] && Splits(tmp, done, prev, p, nest)
    {
      if nest == 0 && tmp[p] == ',' {
        SplitsAtComma(tmp, done, prev, p);
        if newArgc >= MAX_ARGS {
          return newArgv, newArgc, Some(TooManyArguments);
        }
        newArgv[newArgc] := tmp[prev..p];
        newArgc := newArgc + 1;
        done := done + [tmp[prev..p]];
        prev := p + 1;
      } else {
        SplitsNext(tmp, done, prev, p, nest);
        if tmp[p] == '(' {
          nest := nest + 1;
        } else if tmp[p] == ')' {
          nest := nest - 1;
        }
      }
      p := p + 1;
    }
    SplitsAtEnd(tmp, done, prev, nest);
    if newArgc == newArgv.Length {
      return newArgv, newArgc, Some(ArrayOverrun);
    }
    newArgv[newArgc] := tmp[prev..];
    newArgc := newArgc + 1;
    error := None;
  }
}
