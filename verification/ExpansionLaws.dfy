/** What macro expansion keeps: counts only guard, clauses are cut exactly. */
module ExpansionLaws {
  import opened Options
  import opened Sequences
  import opened Expansion

  // ---------- the counts are guards ----------

  ghost predicate Below(b: seq<nat>, c: seq<nat>) {
    |b| == |c| && forall i :: 0 <= i < |c| ==> b[i] <= c[i]
  }

  /** Expansion that succeeds has the same result with smaller counts: they
      stop runaway expansion, and have no other effect. */
  lemma {:induction false} CountsOnlyGuard(w: World, b: seq<nat>, c: seq<nat>, s: string, args: seq<string>)
    requires |c| == |w.defs| && Below(b, c) && Expand(w, c, s, args).Ok?
    ensures Expand(w, b, s, args) == Expand(w, c, s, args)
    decreases Budget(c), |s|, 0, 1
  {
    UntilOnlyGuard(w, b, c, s, _ => false, args);
  }

  lemma {:induction false} UntilOnlyGuard(w: World, b: seq<nat>, c: seq<nat>, s: string,
                                          stop: char -> bool, args: seq<string>)
    requires |c| == |w.defs| && Below(b, c) && ExpandUntil(w, c, s, stop, args).Ok?
    ensures ExpandUntil(w, b, s, stop, args) == ExpandUntil(w, c, s, stop, args)
    decreases Budget(c), |s|, 0, 0
  {
    if s != "" {
      if s[0] == '$' {
        DollarOnlyGuards(w, b, c, s[1..], args);
        UntilOnlyGuard(w, b, c, Dollar(w, c, s[1..], args).value.1, stop, args);
      } else if !stop(s[0]) {
        UntilOnlyGuard(w, b, c, s[1..], stop, args);
      }
    }
  }

  lemma {:induction false} DollarOnlyGuards(w: World, b: seq<nat>, c: seq<nat>, s: string, args: seq<string>)
    requires |c| == |w.defs| && Below(b, c) && Dollar(w, c, s, args).Ok?
    ensures Dollar(w, b, s, args) == Dollar(w, c, s, args)
    decreases Budget(c), |s|, 3, 0
  {
    if s != "" && s[0] == '(' {
      var q := Close(s[1..], 0).value;
      ClauseOnlyGuards(w, b, c, s[1..1 + q], args);
    }
  }

  lemma {:induction false} ClauseOnlyGuards(w: World, b: seq<nat>, c: seq<nat>, s: string, args: seq<string>)
    requires |c| == |w.defs| && Below(b, c) && Clause(w, c, s, args).Ok?
    ensures Clause(w, b, s, args) == Clause(w, c, s, args)
    decreases Budget(c), |s|, 2, 0
  {
    var n, ts := w.host.number(s), Tokens(s, 0);
    if !(n.Some? && 0 < n.value <= |args|) {
      CountsOnlyGuard(w, b, c, ts[0], args);
      AllOnlyGuard(w, b, c, ts[1..], args, |s|);
      CallOnlyGuards(w, b, c, Expand(w, c, ts[0], args).value, ExpandAll(w, c, ts[1..], args, |s|).value);
    }
  }

  lemma {:induction false} AllOnlyGuard(w: World, b: seq<nat>, c: seq<nat>, ts: seq<string>,
                                        args: seq<string>, bound: nat)
    requires |c| == |w.defs| && Below(b, c) && (forall t :: t in ts ==> |t| <= bound)
    requires ExpandAll(w, c, ts, args, bound).Ok?
    ensures ExpandAll(w, b, ts, args, bound) == ExpandAll(w, c, ts, args, bound)
    decreases Budget(c), bound, 1, |ts|
  {
    if ts != [] {
      AllOnlyGuard(w, b, c, ts[..|ts| - 1], args, bound);
      CountsOnlyGuard(w, b, c, ts[|ts| - 1], args);
    }
  }

  lemma {:induction false} CallOnlyGuards(w: World, b: seq<nat>, c: seq<nat>, name: string, args: seq<string>)
    requires |c| == |w.defs| && Below(b, c) && Call(w, c, name, args).Ok?
    ensures Call(w, b, name, args) == Call(w, c, name, args)
    decreases Budget(c), 0, 1, 1
  {
    var i := Lookup(w.defs, name);
    if i.Some? && w.defs[i.value].flavor.Recursive? {
      EnteringCosts(c, i.value);
      CountsOnlyGuard(w, Entered(b, i.value), Entered(c, i.value), w.defs[i.value].value, args);
    }
  }

  // ---------- text without references ----------

  /** Without '$' nothing is expanded, and reading stops at the first character
      that ends the token. */
  lemma {:induction false} PlainText(w: World, c: seq<nat>, s: string, stop: char -> bool, args: seq<string>, n: nat)
    requires |c| == |w.defs| && n <= |s| && (n < |s| ==> s[n] != '$' && stop(s[n]))
    requires forall i :: 0 <= i < n ==> s[i] != '$' && !stop(s[i])
    ensures ExpandUntil(w, c, s, stop, args) == Ok((s[..n], s[n..]))
  {
    if n > 0 {
      PlainText(w, c, s[1..], stop, args, n - 1);
      assert s[..n] == [s[0]] + s[1..][..n - 1] && s[n..] == s[1..][n - 1..];
    } else if s != "" {
      assert s[0..] == s;
    }
  }

  // ---------- parentheses and commas ----------

  // How deep nesting is after s.
  function Depth(s: string, nest: int): int {
    if s == "" then nest else Nest(Depth(s[..|s| - 1], nest), s[|s| - 1])
  }

  lemma {:induction false} DepthFromFront(s: string, nest: int)
    requires s != ""
    ensures Depth(s, nest) == Depth(s[1..], Nest(nest, s[0]))
  {
    if |s| > 1 {
      DepthFromFront(s[..|s| - 1], nest);
      assert s[..|s| - 1][1..] == s[1..][..|s| - 2];
    } else {
      assert s[..0] == "" && s[1..] == "";
    }
  }

  /** A reference ends at the first parenthesis that closes it. */
  lemma {:induction false} ClosesExactly(s: string, nest: nat, q: nat)
    requires q < |s|
    ensures Close(s, nest) == Some(q) <==>
      Depth(s[..q], nest) == 0 && s[q] == ')' && forall j :: 0 <= j < q ==> Depth(s[..j], nest) > 0 || s[j] != ')'
  {
    assert s[..0] == "";
    if q == 0 {
      assert Depth(s[..0], nest) == nest;
    } else if s[0] == ')' && nest == 0 {
      assert Depth(s[..0], nest) == 0;
    } else {
      var rest, n := s[1..], Nest(nest, s[0]);
      ClosesExactly(rest, n, q - 1);
      forall j | 0 < j <= q ensures Depth(s[..j], nest) == Depth(rest[..j - 1], n) {
        DepthFromFront(s[..j], nest);
        assert s[..j][1..] == rest[..j - 1];
      }
      assert forall j :: 0 <= j < q - 1 ==> rest[j] == s[j + 1];
    }
  }

  function Joined(ts: seq<string>): string {
    if ts == [] then "" else if |ts| == 1 then ts[0] else ts[0] + "," + Joined(ts[1..])
  }

  // Every comma of t, read at the given depth, is inside parentheses.
  ghost predicate NoBareComma(t: string, nest: int) {
    forall j :: 0 <= j < |t| && t[j] == ',' ==> Depth(t[..j], nest) != 0
  }

  /** Joining the tokens gives the clause back... */
  lemma {:induction false} TokensJoin(s: string, nest: int)
    ensures Joined(Tokens(s, nest)) == s
  {
    if s == "" {
      assert Tokens(s, nest) == [""];
    } else {
      var n := Nest(nest, s[0]);
      var ts := Tokens(s[1..], n);
      TokensJoin(s[1..], n);
      hide Joined, Attach;
      if s[0] == ',' && nest == 0 {
        JoinedStep([""] + ts);
        assert ([""] + ts)[1..] == ts && "" + ("," + s[1..]) == s;
      } else {
        AttachKeepsJoin([s[0]], ts);
        assert [s[0]] + s[1..] == s;
      }
    }
  }

  lemma JoinedStep(ts: seq<string>)
    requires |ts| > 0
    ensures Joined(ts) == ts[0] + (if |ts| == 1 then "" else "," + Joined(ts[1..]))
  {
    if |ts| > 1 {
      assert ts[0] + "," + Joined(ts[1..]) == ts[0] + ("," + Joined(ts[1..]));
    } else {
      assert ts[0] + "" == ts[0];
    }
  }

  lemma AttachKeepsJoin(x: string, ts: seq<string>)
    requires |ts| > 0
    ensures Joined(Attach(x, ts)) == x + Joined(ts)
  {
    hide Joined, Attach;
    JoinedStep(ts);
    JoinedStep(Attach(x, ts));
    Regroup(x, ts[0], if |ts| == 1 then "" else "," + Joined(ts[1..]));
  }

  /** ...and none of them can be split further. */
  lemma {:induction false} TokensAreMinimal(s: string, nest: int)
    ensures NoBareComma(Tokens(s, nest)[0], nest)
    ensures forall i :: 0 < i < |Tokens(s, nest)| ==> NoBareComma(Tokens(s, nest)[i], 0)
  {
    if s != "" {
      var n := Nest(nest, s[0]);
      var ts := Tokens(s[1..], n);
      TokensAreMinimal(s[1..], n);
      if !(s[0] == ',' && nest == 0) {
        LongerToken(s[0], ts[0], nest);
      }
    }
  }

  lemma LongerToken(ch: char, t: string, nest: int)
    requires NoBareComma(t, Nest(nest, ch)) && !(ch == ',' && nest == 0)
    ensures NoBareComma([ch] + t, nest)
  {
    var u := [ch] + t;
    forall j | 0 <= j < |u| && u[j] == ',' ensures Depth(u[..j], nest) != 0 {
      if j == 0 {
        assert u[..0] == "";
      } else {
        DepthFromFront(u[..j], nest);
        assert u[..j][1..] == t[..j - 1] && t[j - 1] == ',';
      }
    }
  }

  function BareCommas(s: string, nest: int): nat {
    if s == "" then 0
    else (if s[0] == ',' && nest == 0 then 1 else 0) + BareCommas(s[1..], Nest(nest, s[0]))
  }

  /** There is one token more than commas outside parentheses. */
  lemma {:induction false} TokensAndCommas(s: string, nest: int)
    ensures |Tokens(s, nest)| == 1 + BareCommas(s, nest)
  {
    if s != "" {
      TokensAndCommas(s[1..], Nest(nest, s[0]));
    }
  }

  predicate IsArgument(w: World, s: string, args: seq<string>) {
    var n := w.host.number(s);
    n.Some? && 0 < n.value <= |args|
  }

  /** The test in eval_clause turns down clauses with more than sixteen commas
      outside parentheses, lets sixteen pass, and then the last token is stored
      beyond the array, which has room for those of fifteen. */
  lemma TooManyExactly(w: World, c: seq<nat>, s: string, args: seq<string>)
    requires |c| == |w.defs| && !IsArgument(w, s, args)
    ensures |Tokens(s, 0)| > MAX_ARGS + 1 <==> BareCommas(s, 0) > MAX_ARGS
    ensures |Tokens(s, 0)| == MAX_ARGS + 1 <==> BareCommas(s, 0) == MAX_ARGS
    ensures BareCommas(s, 0) > MAX_ARGS ==> Clause(w, c, s, args) == Err(TooManyArguments)
    ensures BareCommas(s, 0) == MAX_ARGS ==> Clause(w, c, s, args) == Err(ArrayOverrun)
  {
    TokensAndCommas(s, 0);
  }

  function Commas(n: nat): (s: string)
    ensures |s| == n
  {
    if n == 0 then "" else "," + Commas(n - 1)
  }

  lemma {:induction false} CommasCount(n: nat)
    ensures BareCommas(Commas(n), 0) == n && Close(Commas(n) + ")", 0) == Some(n)
  {
    if n > 0 {
      assert Commas(n)[1..] == Commas(n - 1) && (Commas(n) + ")")[1..] == Commas(n - 1) + ")";
      CommasCount(n - 1);
    }
  }

  /** A reference to nothing but sixteen commas, $(,,,,,,,,,,,,,,,,), is not
      refused: its expansion stores beyond the array, whatever the variables. */
  lemma SixteenCommas(w: World, c: seq<nat>)
    requires |c| == |w.defs|
    ensures Expand(w, c, "$(" + Commas(16) + ")", []) == Err(ArrayOverrun)
  {
    hide Commas, Clause, Close, BareCommas, Tokens;
    var s := Commas(16);
    CommasCount(16);
    TooManyExactly(w, c, s, []);
    var t := "(" + s + ")";
    assert t[1..] == s + ")" && t[1..17] == s;
    assert Dollar(w, c, t, []) == Err(ArrayOverrun);
    assert ("$(" + s + ")")[1..] == t;
  }
}
