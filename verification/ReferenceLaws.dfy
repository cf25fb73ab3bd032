/** What references in a text expand to. */
module ReferenceLaws {
  import opened Options
  import opened Sequences
  import opened Expansion
  import opened ExpansionLaws

  // Read from the given depth, every comma is inside parentheses, and every
  // parenthesis is closed.
  predicate IsBalanced(s: string, nest: nat) {
    if s == "" then nest == 0
    else !(nest == 0 && (s[0] == ',' || s[0] == ')')) && IsBalanced(s[1..], Nest(nest, s[0]))
  }

  // The clause that calls name with args.
  function CallText(name: string, args: seq<string>): string
    decreases |args|
  {
    if args == [] then name else name + "," + CallText(args[0], args[1..])
  }

  // The i-th variable is the one of that name.
  ghost predicate IsVariable(w: World, name: string, i: nat) {
    && i < |w.defs| && w.defs[i].name == name
    && forall j :: 0 <= j < i ==> w.defs[j].name != name
  }

  // ---------- clauses ----------

  lemma {:induction false} OneToken(x: string, nest: nat)
    requires IsBalanced(x, nest)
    ensures Tokens(x, nest) == [x]
  {
    if x != "" {
      OneToken(x[1..], Nest(nest, x[0]));
      assert [x[0]] + x[1..] == x;
    }
  }

  lemma {:induction false} FirstToken(x: string, nest: nat, rest: string)
    requires IsBalanced(x, nest)
    ensures Tokens(x + "," + rest, nest) == [x] + Tokens(rest, 0)
  {
    var s := x + "," + rest;
    if x == "" {
      assert s[0] == ',' && s[1..] == rest;
    } else {
      assert s[0] == x[0] && s[1..] == x[1..] + "," + rest;
      assert Tokens(s, nest) == Attach([s[0]], Tokens(s[1..], Nest(nest, s[0])));
      hide Tokens;
      FirstToken(x[1..], Nest(nest, x[0]), rest);
      AttachFirst(x, Tokens(rest, 0));
    }
  }

  lemma AttachFirst(x: string, ts: seq<string>)
    requires x != ""
    ensures Attach([x[0]], [x[1..]] + ts) == [x] + ts
  {
    assert [x[0]] + x[1..] == x && ([x[1..]] + ts)[1..] == ts;
  }

  /** The parts of such a clause are the name and the arguments. */
  lemma {:induction false} CallTokens(name: string, args: seq<string>)
    requires IsBalanced(name, 0) && forall a :: a in args ==> IsBalanced(a, 0)
    ensures Tokens(CallText(name, args), 0) == [name] + args
    decreases |args|
  {
    if args == [] {
      OneToken(name, 0);
    } else {
      FirstToken(name, 0, CallText(args[0], args[1..]));
      CallTokens(args[0], args[1..]);
      assert [args[0]] + args[1..] == args;
    }
  }

  // The arguments expand to xs.
  ghost predicate ExpandTo(w: World, c: seq<nat>, args: seq<string>, xs: seq<string>, outer: seq<string>)
    requires |c| == |w.defs|
  {
    |xs| == |args| && forall i :: 0 <= i < |args| ==> Expand(w, c, args[i], outer) == Ok(xs[i])
  }

  lemma {:induction false} ArgumentsExpand(w: World, c: seq<nat>, ts: seq<string>, xs: seq<string>,
                                           outer: seq<string>, bound: nat)
    requires |c| == |w.defs| && ExpandTo(w, c, ts, xs, outer) && (forall t :: t in ts ==> |t| <= bound)
    ensures ExpandAll(w, c, ts, outer, bound) == Ok(xs)
  {
    if ts != [] {
      var n := |ts| - 1;
      assert ExpandTo(w, c, ts[..n], xs[..n], outer);
      ArgumentsExpand(w, c, ts[..n], xs[..n], outer, bound);
      assert xs[..n] + [xs[n]] == xs;
    }
  }

  lemma ClauseIsCall(w: World, c: seq<nat>, name: string, args: seq<string>, nm: string, xs: seq<string>,
                     outer: seq<string>)
    requires |c| == |w.defs| && IsBalanced(name, 0) && (forall a :: a in args ==> IsBalanced(a, 0))
    requires |args| < MAX_ARGS && !IsArgument(w, CallText(name, args), outer)
    requires Expand(w, c, name, outer) == Ok(nm) && ExpandTo(w, c, args, xs, outer)
    ensures Clause(w, c, CallText(name, args), outer) == Call(w, c, nm, xs)
  {
    var s := CallText(name, args);
    var ts := Tokens(s, 0);
    CallTokens(name, args);
    assert ts[0] == name && ts[1..] == args && forall t :: t in ts ==> |t| <= |s|;
    hide Tokens, CallText, Expand, ExpandAll, Call, IsBalanced, ExpandTo;
    assert forall a :: a in args ==> a in ts;
    ArgumentsExpand(w, c, args, xs, outer, |s|);
  }

  /** Text without dollar signs is its own expansion. */
  lemma PlainExpands(w: World, c: seq<nat>, x: string, outer: seq<string>)
    requires |c| == |w.defs| && '$' !in x
    ensures Expand(w, c, x, outer) == Ok(x)
  {
    PlainText(w, c, x, _ => false, outer, |x|);
    assert x[..|x|] == x && x[|x|..] == "";
  }

  // ---------- references in a text ----------

  // No parenthesis of s is left open or closed too early.
  ghost predicate IsClosed(s: string) { Close(s + ")", 0) == Some(|s|) }

  lemma {:induction false} CloseWithMore(s: string, nest: nat, rest: string)
    ensures Close(s, nest).Some? ==> Close(s + rest, nest) == Close(s, nest)
  {
    if s != "" {
      assert (s + rest)[0] == s[0] && (s + rest)[1..] == s[1..] + rest;
      if !(s[0] == ')' && nest == 0) {
        CloseWithMore(s[1..], if s[0] == '(' then nest + 1 else if s[0] == ')' then nest - 1 else nest, rest);
      }
    }
  }

  // Reading goes on after a balanced text.
  lemma {:induction false} CloseAfter(x: string, nest: nat, rest: string)
    requires IsBalanced(x, nest)
    ensures Close(x + rest, nest) == (var q := Close(rest, 0); if q.Some? then Some(|x| + q.value) else None)
  {
    if x == "" {
      assert x + rest == rest;
    } else {
      assert (x + rest)[0] == x[0] && (x + rest)[1..] == x[1..] + rest;
      CloseAfter(x[1..], Nest(nest, x[0]), rest);
    }
  }

  lemma {:induction false} CallIsClosed(name: string, args: seq<string>)
    requires IsBalanced(name, 0) && forall a :: a in args ==> IsBalanced(a, 0)
    ensures IsClosed(CallText(name, args))
    decreases |args|
  {
    if args == [] {
      CloseAfter(name, 0, ")");
    } else {
      var more := CallText(args[0], args[1..]);
      CallIsClosed(args[0], args[1..]);
      CloseAfter(name, 0, "," + more + ")");
      assert name + ("," + more + ")") == CallText(name, args) + ")";
      assert ("," + more + ")")[1..] == more + ")";
    }
  }

  lemma DollarIsClause(w: World, c: seq<nat>, s: string, rest: string, outer: seq<string>)
    requires |c| == |w.defs| && IsClosed(s)
    ensures var x, r := Clause(w, c, s, outer), Dollar(w, c, "(" + s + ")" + rest, outer);
      (x.Err? ==> r == Err(x.error)) && (x.Ok? ==> r == Ok((x.value, rest)))
  {
    var t := "(" + s + ")" + rest;
    CloseWithMore(s + ")", 0, rest);
    assert t[1..] == s + ")" + rest && t[1..1 + |s|] == s && t[|s| + 2..] == rest;
    hide Clause, Close;
  }

  /** Text around a reference is kept: what is before it up to the dollar sign,
      then the reference, then what the rest expands to. */
  lemma {:induction false} TextAround(w: World, c: seq<nat>, before: string, s: string, rest: string, outer: seq<string>)
    requires |c| == |w.defs| && '$' !in before && IsClosed(s)
    ensures var x, y := Clause(w, c, s, outer), Expand(w, c, rest, outer);
      var r := Expand(w, c, before + ("$(" + s + ")" + rest), outer);
      && (x.Err? ==> r == Err(x.error))
      && (x.Ok? && y.Err? ==> r == Err(y.error))
      && (x.Ok? && y.Ok? ==> r == Ok(before + (x.value + y.value)))
    decreases |before|
  {
    var text := before + ("$(" + s + ")" + rest);
    var x, y := Clause(w, c, s, outer), ExpandUntil(w, c, rest, _ => false, outer);
    if before == "" {
      var t := "(" + s + ")" + rest;
      assert text[0] == '$' && text[1..] == t;
      DollarIsClause(w, c, s, rest, outer);
      hide Clause, Dollar;
      assert x.Ok? ==> ExpandUntil(w, c, text, _ => false, outer) == Prepend(x.value, y);
      assert x.Ok? && y.Ok? ==> "" + (x.value + y.value.0) == x.value + y.value.0;
    } else {
      var more := before[1..] + ("$(" + s + ")" + rest);
      assert text[0] == before[0] && text[1..] == more && before == [before[0]] + before[1..];
      TextAround(w, c, before[1..], s, rest, outer);
      hide Clause, Dollar;
      assert ExpandUntil(w, c, text, _ => false, outer)
          == Prepend([before[0]], ExpandUntil(w, c, more, _ => false, outer));
      if x.Ok? && y.Ok? {
        Regroup([before[0]], before[1..], x.value + y.value.0);
      }
    }
  }

  /** A dollar sign without a parenthesis stands for itself. */
  lemma DollarAlone(w: World, c: seq<nat>, s: string, outer: seq<string>)
    requires |c| == |w.defs| && (s != "" ==> s[0] != '(')
    ensures var r := Expand(w, c, s, outer);
      Expand(w, c, "$" + s, outer) == if r.Err? then r else Ok("$" + r.value)
  {
    assert ("$" + s)[0] == '$' && ("$" + s)[1..] == s;
    hide Clause;
    assert Dollar(w, c, s, outer) == Ok(("$", s));
    var u := ExpandUntil(w, c, s, _ => false, outer);
    assert ExpandUntil(w, c, "$" + s, _ => false, outer) == Prepend("$", u);
  }

  // ---------- what a reference yields ----------

  // The text $(name,args...).
  function Reference(name: string, args: seq<string>): string { "$(" + CallText(name, args) + ")" }

  // A reference whose name and arguments expand to nm and xs.
  ghost predicate Calls(w: World, c: seq<nat>, name: string, args: seq<string>, nm: string, xs: seq<string>,
                        outer: seq<string>)
    requires |c| == |w.defs|
  {
    && IsBalanced(name, 0) && (forall a :: a in args ==> IsBalanced(a, 0))
    && |args| < MAX_ARGS && !IsArgument(w, CallText(name, args), outer)
    && Expand(w, c, name, outer) == Ok(nm) && ExpandTo(w, c, args, xs, outer)
  }

  lemma ReferenceIsCall(w: World, c: seq<nat>, name: string, args: seq<string>, nm: string, xs: seq<string>,
                        outer: seq<string>)
    requires |c| == |w.defs| && Calls(w, c, name, args, nm, xs, outer)
    ensures Expand(w, c, Reference(name, args), outer) == Call(w, c, nm, xs)
  {
    var s := CallText(name, args);
    ClauseIsCall(w, c, name, args, nm, xs, outer);
    CallIsClosed(name, args);
    TextAround(w, c, "", s, "", outer);
    assert "" + ("$(" + s + ")" + "") == Reference(name, args);
    hide Clause, CallText, IsClosed, Call, Calls, Reference;
    assert Expand(w, c, "", outer) == Ok("");
    var x := Clause(w, c, s, outer);
    assert x.Ok? ==> "" + (x.value + "") == x.value;
  }

  /** $(i) is the i-th argument of the call that the text is part of. */
  lemma ArgumentReference(w: World, c: seq<nat>, s: string, i: nat, outer: seq<string>)
    requires |c| == |w.defs| && IsClosed(s) && w.host.number(s) == Some(i) && 0 < i <= |outer|
    ensures Expand(w, c, "$(" + s + ")", outer) == Ok(outer[i - 1])
  {
    TextAround(w, c, "", s, "", outer);
    assert "" + ("$(" + s + ")" + "") == "$(" + s + ")";
    assert Expand(w, c, "", outer) == Ok("") && "" + (outer[i - 1] + "") == outer[i - 1];
  }

  /** A variable: a simple one is its value, a recursive one its value expanded
      with the arguments of the reference. Without arguments it must not be in
      expansion already, and otherwise not a thousand deep. */
  lemma VariableReference(w: World, c: seq<nat>, name: string, args: seq<string>, nm: string, xs: seq<string>,
                          outer: seq<string>, i: nat)
    requires |c| == |w.defs| && Calls(w, c, name, args, nm, xs, outer) && IsVariable(w, nm, i)
    ensures var r := Expand(w, c, Reference(name, args), outer);
      if xs == [] && c[i] != 0 then r == Err(RecursiveVariable(nm))
      else if c[i] > 1000 then r == Err(TooDeep)
      else if w.defs[i].flavor.Simple? then r == Ok(w.defs[i].value)
      else r == Expand(w, c[i := c[i] + 1], w.defs[i].value, xs)
  {
    ReferenceIsCall(w, c, name, args, nm, xs, outer);
    hide Reference, Expand;
    assert Lookup(w.defs, nm) == Some(i);
  }

  /** Without a variable of that name: the built-in functions, which insist on
      their number of arguments; for other names the environment, if there are no
      arguments; and otherwise nothing. */
  lemma BuiltInReference(w: World, c: seq<nat>, name: string, args: seq<string>, nm: string, xs: seq<string>,
                         outer: seq<string>)
    requires |c| == |w.defs| && Calls(w, c, name, args, nm, xs, outer)
    requires forall i :: 0 <= i < |w.defs| ==> w.defs[i].name != nm
    ensures var r := Expand(w, c, Reference(name, args), outer);
      && (nm == "shell" || nm == "info" ==>
            r == if |xs| < 1 then Err(TooFewArguments(nm)) else if |xs| > 1 then Err(TooManyPassed(nm))
                 else if nm == "shell" then Ok(w.host.shell(xs[0])) else Ok(""))
      && (nm == "error-if" || nm == "warning-if" ==>
            r == if |xs| < 2 then Err(TooFewArguments(nm)) else if |xs| > 2 then Err(TooManyPassed(nm))
                 else if nm == "error-if" && xs[0] == "y" then Err(ErrorIf(xs[1])) else Ok(""))
      && (nm == "filename" ==> r == if xs == [] then Ok(w.host.filename) else Err(TooManyPassed(nm)))
      && (nm == "lineno" ==> r == if xs == [] then Ok(w.host.lineno) else Err(TooManyPassed(nm)))
      && (nm !in ["shell", "info", "error-if", "warning-if", "filename", "lineno"] ==>
            r == Ok(if xs == [] && nm != "" && nm in w.host.env then w.host.env[nm] else ""))
  {
    ReferenceIsCall(w, c, name, args, nm, xs, outer);
    hide Reference, Expand;
    assert Lookup(w.defs, nm) == None;
    DifferentNames();
  }

  lemma DifferentNames()
    ensures var ns := ["shell", "info", "error-if", "warning-if", "filename", "lineno"];
      forall i, j :: 0 <= i < j < |ns| ==> ns[i] != ns[j]
  {
    assert "shell"[0] == 's' && "info"[0] == 'i' && "error-if"[0] == 'e' && "warning-if"[0] == 'w';
    assert "filename"[0] == 'f' && "lineno"[0] == 'l';
  }
}
