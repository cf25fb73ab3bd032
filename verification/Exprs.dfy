/** Dependency expressions and their three-valued meaning (expr.h, expr.c).

    A symbol pointer is modelled by a value: the three static symbols and the
    allocated ones, which differ from each other in name, type or constness. */
module Exprs {
  import opened Options

  // ---------- tristates: no = 0, mod = 1, yes = 2 ----------

  type Tri = t: int | 0 <= t <= 2

  const NO: Tri := 0
  const MOD: Tri := 1
  const YES: Tri := 2

  function Min(a: Tri, b: Tri): Tri { if a < b then a else b }

  function Max(a: Tri, b: Tri): Tri { if a > b then a else b }

  function Negate(a: Tri): Tri { 2 - a }

  function Truth(b: bool): Tri { if b then YES else NO }

  function TriText(t: Tri): string {
    if t == NO then "n" else if t == MOD then "m" else "y"
  }

  // ---------- symbols and expressions ----------

  datatype SymType = Unknown | Boolean | Tristate | IntType | HexType | StringType

  datatype Sym =
    | SymNo
    | SymMod
    | SymYes
    | Named(name: string, symType: SymType, quoted: bool)
  {
    function Type(): SymType { if Named? then symType else Unknown }

    predicate IsConst() { Named? ==> quoted }

    function Name(): string {
      match this
      case SymNo => "n"
      case SymMod => "m"
      case SymYes => "y"
      case Named(name, _, _) => name
    }

    predicate IsTriConst() { !Named? }

    predicate IsLogical() { Type().Boolean? || Type().Tristate? }
  }

  datatype Rel = EQ | NE | LT | LE | GT | GE

  // The two operator node types, E_OR and E_AND.
  datatype Op = OrOp | AndOp

  // E_LIST, E_RANGE and E_NONE never occur inside a dependency.
  datatype Expr =
    | Symbol(sym: Sym)
    | Not(arg: Expr)
    | Bin(op: Op, left: Expr, right: Expr)
    | Comp(rel: Rel, lhs: Sym, rhs: Sym)

  // A NULL expression pointer.
  type ExprPtr = Option<Expr>

  function And(l: Expr, r: Expr): Expr { Bin(AndOp, l, r) }

  function Or(l: Expr, r: Expr): Expr { Bin(OrOp, l, r) }

  const YES_EXPR: Expr := Symbol(SymYes)
  const NO_EXPR: Expr := Symbol(SymNo)

  // The operand an operator ignores, and the one that decides its result.
  function Unit(op: Op): Expr { if op.AndOp? then YES_EXPR else NO_EXPR }

  function Zero(op: Op): Expr { if op.AndOp? then NO_EXPR else YES_EXPR }

  function Size(e: Expr): nat {
    match e
    case Symbol(_) => 1
    case Comp(_, _, _) => 1
    case Not(a) => 1 + Size(a)
    case Bin(_, l, r) => 1 + Size(l) + Size(r)
  }

  function Syms(e: Expr): set<Sym> {
    match e
    case Symbol(s) => {s}
    case Comp(_, l, r) => {l, r}
    case Not(a) => Syms(a)
    case Bin(_, l, r) => Syms(l) + Syms(r)
  }

  // ---------- valuations ----------

  /** What an expression observes of the symbols: curr.tri, and how the string
      values of two symbols compare. */
  datatype Valuation = Valuation(tri: Sym -> Tri, cmp: (Sym, Sym) -> int)

  /** Symbols obey their type, y, m and n have their values, and a logical
      symbol equals one of them exactly when its tristate does. */
  ghost predicate Consistent(v: Valuation) {
    && v.tri(SymNo) == NO && v.tri(SymMod) == MOD && v.tri(SymYes) == YES
    && (forall s: Sym :: s.Type().Boolean? ==> v.tri(s) != MOD)
    && (forall s: Sym, c: Sym :: (s.IsLogical() || s.IsTriConst()) && c.IsTriConst() ==>
          (v.cmp(s, c) == 0 <==> v.tri(s) == v.tri(c)))
  }

  predicate Holds(rel: Rel, res: int) {
    match rel
    case EQ => res == 0
    case NE => res != 0
    case LT => res < 0
    case LE => res <= 0
    case GT => res > 0
    case GE => res >= 0
  }

  function Apply(op: Op, a: Tri, b: Tri): Tri {
    if op.AndOp? then Min(a, b) else Max(a, b)
  }

  /** expr_calc_value, over symbols whose values are given. */
  function Eval(e: Expr, v: Valuation): Tri {
    match e
    case Symbol(s) => v.tri(s)
    case Not(a) => Negate(Eval(a, v))
    case Bin(op, l, r) => Apply(op, Eval(l, v), Eval(r, v))
    case Comp(rel, l, r) => Truth(Holds(rel, v.cmp(l, r)))
  }

  // A NULL expression is 'yes'.
  function EvalPtr(e: ExprPtr, v: Valuation): Tri {
    if e.None? then YES else Eval(e.value, v)
  }

  /** Two valuations that agree on the symbols of e give it the same value. */
  lemma {:induction false} EvalLocal(e: Expr, v: Valuation, w: Valuation)
    requires forall s :: s in Syms(e) ==> v.tri(s) == w.tri(s)
    requires forall s, t :: s in Syms(e) && t in Syms(e) ==> v.cmp(s, t) == w.cmp(s, t)
    ensures Eval(e, v) == Eval(e, w)
  {
    match e
    case Symbol(_) =>
    case Comp(_, _, _) =>
    case Not(a) => EvalLocal(a, v, w);
    case Bin(_, l, r) => EvalLocal(l, v, w); EvalLocal(r, v, w);
  }

  // ---------- comparing string values ----------

  // How expr_parse_string classifies a string.
  datatype Number = NotNumber | Signed(s: int) | Unsigned(u: int)

  // strtoll and strtoull with the tests expr_parse_string makes on their result.
  type Parser = (string, SymType) -> Number

  function ParseTri(s: string): Number {
    Signed(if s == "n" then 0 else if s == "m" then 1 else if s == "y" then 2 else -1)
  }

  function Parse(p: Parser, s: string, t: SymType): Number {
    if t.Boolean? || t.Tristate? then ParseTri(s) else p(s, t)
  }

  // The sign of C's strcmp.
  function StrCmp(a: string, b: string): int {
    if a == [] then (if b == [] then 0 else -1)
    else if b == [] then 1
    else if a[0] != b[0] then (if a[0] < b[0] then -1 else 1)
    else StrCmp(a[1..], b[1..])
  }

  lemma {:induction false} StrCmpEqual(a: string, b: string)
    ensures StrCmp(a, b) == 0 <==> a == b
  {
    if a != [] && b != [] {
      StrCmpEqual(a[1..], b[1..]);
      assert a == [a[0]] + a[1..] && b == [b[0]] + b[1..];
    }
  }

  function Sign(d: int): int { if d < 0 then -1 else if d > 0 then 1 else 0 }

  // The union's unsigned view of a number: a signed value wraps modulo 2^64.
  function AsUnsigned(n: Number): int
    requires !n.NotNumber?
  {
    if n.Signed? then n.s % 0x1_0000_0000_0000_0000 else n.u
  }

  /** The comparison at the heart of expr_calc_value, on the string values and
      the types of two symbols. */
  function CompareStrings(p: Parser, str1: string, t1: SymType, str2: string, t2: SymType): int {
    var bothStrings := t1.StringType? && t2.StringType?;
    var k1 := if bothStrings then NotNumber else Parse(p, str1, t1);
    var k2 := if bothStrings then NotNumber else Parse(p, str2, t2);
    if k1.NotNumber? || k2.NotNumber? then StrCmp(str1, str2)
    else if k1.Unsigned? || k2.Unsigned? then Sign(AsUnsigned(k1) - AsUnsigned(k2))
    else Sign(k1.s - k2.s)
  }

  function Compare(text: Sym -> string, p: Parser, l: Sym, r: Sym): int {
    CompareStrings(p, text(l), l.Type(), text(r), r.Type())
  }

  /** The valuation of symbols with given tristates and string values. */
  function FromStrings(tri: Sym -> Tri, text: Sym -> string, p: Parser): Valuation {
    Valuation(tri, (l, r) => Compare(text, p, l, r))
  }

  // A single letter is not a number.
  predicate ParsesLetters(p: Parser) {
    p("n", Unknown) == NotNumber && p("m", Unknown) == NotNumber && p("y", Unknown) == NotNumber
  }

  ghost predicate SpellsTristates(tri: Sym -> Tri, text: Sym -> string) {
    forall s: Sym :: s.IsLogical() || s.IsTriConst() ==> text(s) == TriText(tri(s))
  }

  /** Comparing strings the way expr_calc_value does is consistent, although y,
      m and n are compared as letters and not as the numbers 2, 1 and 0. */
  lemma StringsAreConsistent(tri: Sym -> Tri, text: Sym -> string, p: Parser)
    requires tri(SymNo) == NO && tri(SymMod) == MOD && tri(SymYes) == YES
    requires forall s: Sym :: s.Type().Boolean? ==> tri(s) != MOD
    requires SpellsTristates(tri, text) && ParsesLetters(p)
    ensures Consistent(FromStrings(tri, text, p))
  {
    forall s: Sym, c: Sym | (s.IsLogical() || s.IsTriConst()) && c.IsTriConst()
      ensures Compare(text, p, s, c) == 0 <==> tri(s) == tri(c)
    {
      assert c.Type() == Unknown && Parse(p, text(c), c.Type()) == NotNumber;
      StrCmpEqual(text(s), text(c));
      TriTextInjective(tri(s), tri(c));
    }
  }

  lemma TriTextInjective(a: Tri, b: Tri)
    ensures TriText(a) == TriText(b) <==> a == b
  {
    assert "n"[0] == 'n' && "m"[0] == 'm' && "y"[0] == 'y';
  }

  // ---------- building conjunctions and disjunctions ----------

  function AllocAnd(a: ExprPtr, b: ExprPtr): ExprPtr {
    if a.None? then b else if b.None? then a else Some(And(a.value, b.value))
  }

  function AllocOr(a: ExprPtr, b: ExprPtr): ExprPtr {
    if a.None? then b else if b.None? then a else Some(Or(a.value, b.value))
  }

  lemma AllocAndMeans(a: ExprPtr, b: ExprPtr, v: Valuation)
    ensures EvalPtr(AllocAnd(a, b), v) == Min(EvalPtr(a, v), EvalPtr(b, v))
  {
    if a.Some? && b.Some? {
      assert Eval(And(a.value, b.value), v) == Min(Eval(a.value, v), Eval(b.value, v));
    }
  }
}
