/** What a comparison in a dependency comes to, by the string values of its
    symbols. */
module CompareLaws {
  import opened Options
  import opened Exprs
  import opened SymbolValues

  /** The string value of s: the letter of a bool or tristate symbol, which is
      never m while modules are off; the name of a constant; and otherwise what
      the configuration says. */
  predicate HasText(sys: System, val: Sym -> Tri, s: Sym, x: string) {
    if s.IsLogical() then
      x == (if val(s) == YES then "y" else if val(s) == MOD && sys.modules != NO then "m" else "n")
    else if s.IsConst() then x == s.Name()
    else x == sys.text(s)
  }

  // The number a text stands for, by the type of its symbol.
  predicate IsNumber(sys: System, ty: SymType, x: string, n: Number) {
    if ty.Boolean? || ty.Tristate? then
      (x == "n" ==> n == Signed(0)) && (x == "m" ==> n == Signed(1)) && (x == "y" ==> n == Signed(2))
    else n == sys.parse(x, ty) && !n.NotNumber?
  }

  // Such symbols are compared by their texts.
  predicate ComparesTexts(sys: System, l: Sym, r: Sym, x: string, y: string) {
    || (l.Type().StringType? && r.Type().StringType?)
    || (!l.IsLogical() && sys.parse(x, l.Type()).NotNumber?)
    || (!r.IsLogical() && sys.parse(y, r.Type()).NotNumber?)
  }

  predicate Related(rel: Rel, less: bool, equal: bool) {
    match rel
    case EQ => equal
    case NE => !equal
    case LT => less
    case LE => less || equal
    case GT => !less && !equal
    case GE => !less
  }

  /** Two signed numbers are compared as integers... */
  lemma SignedCompare(sys: System, val: Sym -> Tri, rel: Rel, l: Sym, r: Sym, x: string, y: string, a: int, b: int)
    requires HasText(sys, val, l, x) && HasText(sys, val, r, y) && !(l.Type().StringType? && r.Type().StringType?)
    requires IsNumber(sys, l.Type(), x, Signed(a)) && IsNumber(sys, r.Type(), y, Signed(b))
    ensures Eval(Comp(rel, l, r), Observe(sys, val)) == if Related(rel, a < b, a == b) then YES else NO
  {
    LetterIsNumber(sys, val, l, x);
    LetterIsNumber(sys, val, r, y);
  }

  lemma LetterIsNumber(sys: System, val: Sym -> Tri, s: Sym, x: string)
    requires HasText(sys, val, s, x)
    ensures TextOf(sys, val, s) == x
    ensures s.IsLogical() ==> x == "n" || x == "m" || x == "y"
    ensures "n" != "m" && "n" != "y" && "m" != "y"
  {
    assert "n"[0] == 'n' && "m"[0] == 'm' && "y"[0] == 'y';
  }

  // A number as an unsigned one of 64 bits.
  function Unsigned64(n: Number): int
    requires !n.NotNumber?
  {
    match n
    case Signed(s) => s % 0x1_0000_0000_0000_0000
    case Unsigned(u) => u
  }

  /** ...two numbers of which one is unsigned, as hexadecimal ones are, as
      unsigned numbers of 64 bits... */
  lemma UnsignedCompare(sys: System, val: Sym -> Tri, rel: Rel, l: Sym, r: Sym, x: string, y: string,
                        a: Number, b: Number)
    requires HasText(sys, val, l, x) && HasText(sys, val, r, y) && !(l.Type().StringType? && r.Type().StringType?)
    requires IsNumber(sys, l.Type(), x, a) && IsNumber(sys, r.Type(), y, b) && !a.NotNumber? && !b.NotNumber?
    requires a.Unsigned? || b.Unsigned?
    ensures Eval(Comp(rel, l, r), Observe(sys, val))
         == if Related(rel, Unsigned64(a) < Unsigned64(b), Unsigned64(a) == Unsigned64(b)) then YES else NO
  {
    LetterIsNumber(sys, val, l, x);
    LetterIsNumber(sys, val, r, y);
  }

  // x is before y in the dictionary: at the first difference, k.
  predicate DiffersAt(x: string, y: string, k: nat) {
    && k <= |x| && k <= |y| && x[..k] == y[..k]
    && (k < |x| && k < |y| ==> x[k] != y[k]) && (k < |x| || k < |y|)
  }

  predicate IsBefore(x: string, y: string, k: nat)
    requires DiffersAt(x, y, k)
  {
    k == |x| || (k < |y| && x[k] < y[k])
  }

  lemma {:induction false} FirstDifference(x: string, y: string) returns (k: nat)
    requires x != y
    ensures DiffersAt(x, y, k) && StrCmp(x, y) == if IsBefore(x, y, k) then -1 else 1
  {
    if x == "" || y == "" || x[0] != y[0] {
      k := 0;
      assert x[..0] == y[..0];
    } else {
      assert x == [x[0]] + x[1..] && y == [y[0]] + y[1..];
      k := FirstDifference(x[1..], y[1..]);
      assert x[..k + 1] == [x[0]] + x[1..][..k] && y[..k + 1] == [y[0]] + y[1..][..k];
      k := k + 1;
    }
  }

  lemma DifferenceIsUnique(x: string, y: string, j: nat, k: nat)
    requires DiffersAt(x, y, j) && DiffersAt(x, y, k)
    ensures j == k
  {
    if j < k {
      SameBelow(x, y, j, k);
    } else if k < j {
      SameBelow(x, y, k, j);
    }
  }

  lemma SameBelow(x: string, y: string, j: nat, k: nat)
    requires k <= |x| && k <= |y| && x[..k] == y[..k] && j < k
    ensures x[j] == y[j]
  {
    assert x[..k][j] == x[j] && y[..k][j] == y[j];
  }

  /** ...and texts of which one is no number, or of two string symbols, by their
      first difference. */
  lemma TextsCompare(sys: System, val: Sym -> Tri, rel: Rel, l: Sym, r: Sym, x: string, y: string)
    requires HasText(sys, val, l, x) && HasText(sys, val, r, y) && ComparesTexts(sys, l, r, x, y)
    ensures x == y ==> Eval(Comp(rel, l, r), Observe(sys, val)) == if Related(rel, false, true) then YES else NO
    ensures x != y ==> forall k :: DiffersAt(x, y, k) ==>
      Eval(Comp(rel, l, r), Observe(sys, val)) == if Related(rel, IsBefore(x, y, k), false) then YES else NO
  {
    LetterIsNumber(sys, val, l, x);
    LetterIsNumber(sys, val, r, y);
    StrCmpEqual(x, y);
    if x != y {
      var j := FirstDifference(x, y);
      forall k | DiffersAt(x, y, k)
        ensures Eval(Comp(rel, l, r), Observe(sys, val)) == if Related(rel, IsBefore(x, y, k), false) then YES else NO
      {
        DifferenceIsUnique(x, y, j, k);
      }
    }
  }

  /** A string symbol equals a constant that is no number if and only if it has
      the same text. */
  lemma StringEqualsConstant(sys: System, val: Sym -> Tri, s: Sym, c: Sym)
    requires s.Type().StringType? && !s.IsConst() && c.IsConst() && !c.IsLogical()
    requires sys.parse(c.Name(), c.Type()).NotNumber?
    ensures Eval(Comp(EQ, s, c), Observe(sys, val)) == if sys.text(s) == c.Name() then YES else NO
    ensures Eval(Comp(NE, s, c), Observe(sys, val)) == if sys.text(s) == c.Name() then NO else YES
  {
    var x, y := sys.text(s), c.Name();
    TextsCompare(sys, val, EQ, s, c, x, y);
    TextsCompare(sys, val, NE, s, c, x, y);
    if x != y {
      var k := FirstDifference(x, y);
    }
  }
}
