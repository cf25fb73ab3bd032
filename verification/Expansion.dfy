/** Macro expansion as a function of the variables and their expansion counts. */
module Expansion {
  import opened Options

  datatype Error =
    | RecursiveVariable(name: string)
    | TooDeep
    | TooManyArguments
    | ArrayOverrun
    | TooFewArguments(name: string)
    | TooManyPassed(name: string)
    | UnterminatedReference(text: string)
    | ErrorIf(message: string)

  // Err stands for pperror, which ends the program; ArrayOverrun for a store
  // beyond an array, after which nothing is known of the program.
  type Outcome<T> = Result<T, Error>

  datatype Flavor = Simple | Recursive

  datatype Def = Def(name: string, value: string, flavor: Flavor)

  /** What expansion asks of its surroundings: strtoul for strings that are
      numbers throughout, and the sources of the built-in functions. */
  datatype Host = Host(
    number: string -> Option<nat>,
    env: map<string, string>,
    filename: string,
    lineno: string,
    shell: string -> string)

  datatype World = World(defs: seq<Def>, host: Host)

  const MAX_ARGS: nat := 16
  const MAX_DEPTH: nat := 1000

  // ---------- counts ----------

  /** How many more times variables can be entered. */
  function Budget(c: seq<nat>): nat {
    if c == [] then 0 else Budget(c[..|c| - 1]) + Left(c[|c| - 1])
  }

  function Left(n: nat): nat { if n > MAX_DEPTH then 0 else MAX_DEPTH + 1 - n }

  function Entered(c: seq<nat>, i: nat): (d: seq<nat>)
    requires i < |c|
  {
    c[i := c[i] + 1]
  }

  lemma {:induction false} EnteringCosts(c: seq<nat>, i: nat)
    requires i < |c| && c[i] <= MAX_DEPTH
    ensures Budget(Entered(c, i)) < Budget(c)
  {
    var n := |c| - 1;
    if i == n {
      assert Entered(c, i)[..n] == c[..n];
    } else {
      assert Entered(c, i)[..n] == Entered(c[..n], i);
      EnteringCosts(c[..n], i);
    }
  }

  // variable_lookup
  function Lookup(defs: seq<Def>, name: string): (i: Option<nat>)
    ensures i.Some? ==> i.value < |defs| && defs[i.value].name == name
    ensures i.Some? ==> forall j :: 0 <= j < i.value ==> defs[j].name != name
    ensures i.None? ==> forall j :: 0 <= j < |defs| ==> defs[j].name != name
  {
    if defs == [] then None
    else if defs[0].name == name then Some(0)
    else
      var i := Lookup(defs[1..], name);
      assert forall j :: 1 <= j < |defs| ==> defs[j] == defs[1..][j - 1];
      if i.Some? then Some(i.value + 1) else None
  }

  // ---------- text ----------

  // The position of the parenthesis that closes a reference.
  function Close(s: string, nest: nat): (q: Option<nat>)
    ensures q.Some? ==> q.value < |s| && s[q.value] == ')'
  {
    if s == "" then None
    else if s[0] == ')' && nest == 0 then Some(0)
    else
      var q := Close(s[1..], if s[0] == '(' then nest + 1 else if s[0] == ')' then nest - 1 else nest);
      if q.Some? then Some(q.value + 1) else None
  }

  function Nest(nest: int, ch: char): int {
    if ch == '(' then nest + 1 else if ch == ')' then nest - 1 else nest
  }

  /** The parts of a clause between commas outside parentheses. */
  function Tokens(s: string, nest: int): (ts: seq<string>)
    ensures |ts| > 0 && forall t :: t in ts ==> |t| <= |s|
  {
    if s == "" then [""]
    else if s[0] == ',' && nest == 0 then [""] + Tokens(s[1..], nest)
    else Attach([s[0]], Tokens(s[1..], Nest(nest, s[0])))
  }

  function Attach(x: string, ts: seq<string>): (r: seq<string>)
    requires |ts| > 0
    ensures |r| == |ts| && r[0] == x + ts[0] && r[1..] == ts[1..]
  {
    [x + ts[0]] + ts[1..]
  }

  // ---------- built-in functions ----------

  function Arity(name: string): Option<(nat, nat)> {
    if name == "error-if" || name == "warning-if" then Some((2, 2))
    else if name == "filename" || name == "lineno" then Some((0, 0))
    else if name == "info" || name == "shell" then Some((1, 1))
    else None
  }

  // function_expand: None stands for NULL.
  function FunctionExpand(h: Host, name: string, args: seq<string>): Outcome<Option<string>> {
    var arity := Arity(name);
    if arity.None? then Ok(None)
    else if |args| < arity.value.0 then Err(TooFewArguments(name))
    else if |args| > arity.value.1 then Err(TooManyPassed(name))
    else if name == "error-if" then (if args[0] == "y" then Err(ErrorIf(args[1])) else Ok(None))
    else if name == "filename" then Ok(Some(h.filename))
    else if name == "lineno" then Ok(Some(h.lineno))
    else if name == "shell" then Ok(Some(h.shell(args[0])))
    else Ok(Some(""))
  }

  // env_expand
  function EnvExpand(h: Host, name: string): Option<string> {
    if name == "" || name !in h.env then None else Some(h.env[name])
  }

  // function_expand, then env_expand, then the empty string.
  function Fallback(h: Host, name: string, args: seq<string>): Outcome<string> {
    match FunctionExpand(h, name, args)
    case Err(e) => Err(e)
    case Ok(Some(r)) => Ok(r)
    case Ok(None) =>
      if |args| == 0 && EnvExpand(h, name).Some? then Ok(EnvExpand(h, name).value) else Ok("")
  }

  // ---------- expansion ----------

  /** Expands s up to the first character, outside references, where stop holds;
      the text from there on is returned too (__expand_string). */
  function ExpandUntil(w: World, c: seq<nat>, s: string, stop: char -> bool, args: seq<string>)
    : (r: Outcome<(string, string)>)
    requires |c| == |w.defs|
    ensures r.Ok? ==> |r.value.1| <= |s|
    decreases Budget(c), |s|, 0, 0
  {
    if s == "" then Ok(("", ""))
    else if s[0] == '$' then
      match Dollar(w, c, s[1..], args)
      case Err(e) => Err(e)
      case Ok((x, rest)) => Prepend(x, ExpandUntil(w, c, rest, stop, args))
    else if stop(s[0]) then Ok(("", s))
    else Prepend([s[0]], ExpandUntil(w, c, s[1..], stop, args))
  }

  function Prepend(x: string, r: Outcome<(string, string)>): Outcome<(string, string)> {
    match r
    case Err(e) => Err(e)
    case Ok((y, rest)) => Ok((x + y, rest))
  }

  // expand_string_with_args: the whole string.
  function Expand(w: World, c: seq<nat>, s: string, args: seq<string>): Outcome<string>
    requires |c| == |w.defs|
    decreases Budget(c), |s|, 0, 1
  {
    match ExpandUntil(w, c, s, _ => false, args)
    case Err(e) => Err(e)
    case Ok((x, _)) => Ok(x)
  }

  // expand_dollar_with_args: what follows a '$'.
  function Dollar(w: World, c: seq<nat>, s: string, args: seq<string>): (r: Outcome<(string, string)>)
    requires |c| == |w.defs|
    ensures r.Ok? ==> |r.value.1| <= |s|
    decreases Budget(c), |s|, 3, 0
  {
    if s == "" || s[0] != '(' then Ok(("$", s))
    else
      var q := Close(s[1..], 0);
      if q.None? then Err(UnterminatedReference(s[1..]))
      else
        match Clause(w, c, s[1..1 + q.value], args)
        case Err(e) => Err(e)
        case Ok(x) => Ok((x, s[q.value + 2..]))
  }

  // eval_clause
  function Clause(w: World, c: seq<nat>, s: string, args: seq<string>): Outcome<string>
    requires |c| == |w.defs|
    decreases Budget(c), |s|, 2, 0
  {
    var n, ts := w.host.number(s), Tokens(s, 0);
    if n.Some? && 0 < n.value <= |args| then Ok(args[n.value - 1])
    else if |ts| > MAX_ARGS + 1 then Err(TooManyArguments)
    else if |ts| > MAX_ARGS then Err(ArrayOverrun)
    else
      match Expand(w, c, ts[0], args)
      case Err(e) => Err(e)
      case Ok(name) =>
        match ExpandAll(w, c, ts[1..], args, |s|)
        case Err(e) => Err(e)
        case Ok(newArgs) => Call(w, c, name, newArgs)
  }

  // The arguments from left to right.
  function ExpandAll(w: World, c: seq<nat>, ts: seq<string>, args: seq<string>, ghost bound: nat)
    : (r: Outcome<seq<string>>)
    requires |c| == |w.defs| && forall t :: t in ts ==> |t| <= bound
    ensures r.Ok? ==> |r.value| == |ts|
    decreases Budget(c), bound, 1, |ts|
  {
    if ts == [] then Ok([])
    else
      match ExpandAll(w, c, ts[..|ts| - 1], args, bound)
      case Err(e) => Err(e)
      case Ok(done) =>
        match Expand(w, c, ts[|ts| - 1], args)
        case Err(e) => Err(e)
        case Ok(x) => Ok(done + [x])
  }

  // The end of eval_clause: variables, built-in functions, the environment.
  function Call(w: World, c: seq<nat>, name: string, args: seq<string>): Outcome<string>
    requires |c| == |w.defs|
    decreases Budget(c), 0, 1, 1
  {
    match ExpandVariable(w, c, name, args)
    case Err(e) => Err(e)
    case Ok(Some(r)) => Ok(r)
    case Ok(None) => Fallback(w.host, name, args)
  }

  // variable_expand: None stands for NULL.
  function ExpandVariable(w: World, c: seq<nat>, name: string, args: seq<string>): Outcome<Option<string>>
    requires |c| == |w.defs|
    decreases Budget(c), 0, 1, 0
  {
    var i := Lookup(w.defs, name);
    if i.None? then Ok(None)
    else if args == [] && c[i.value] > 0 then Err(RecursiveVariable(name))
    else if c[i.value] > MAX_DEPTH then Err(TooDeep)
    else if w.defs[i.value].flavor.Simple? then Ok(Some(w.defs[i.value].value))
    else
      EnteringCosts(c, i.value);
      match Expand(w, Entered(c, i.value), w.defs[i.value].value, args)
      case Err(e) => Err(e)
      case Ok(r) => Ok(Some(r))
  }
}
