/** Reading a printed line restores the value, and which values it restores. */
module ConfLines {
  import opened Options
  import opened Sequences
  import opened Exprs
  import opened ConfText

  // The symbol is known under its name, which reads as a single word.
  predicate IsKnown(table: map<string, Sym>, s: Sym) {
    && s.Named? && s.name in table && table[s.name] == s
    && s.name !in ["y", "m", "n"] && ' ' !in s.name && '=' !in s.name && '\n' !in s.name
  }

  // What sym_get_string_value returns.
  predicate IsValueOf(s: Sym, value: string) {
    s.IsLogical() ==> value in ["n", "m", "y"]
  }

  /** The values that survive. */
  predicate IsWritable(s: Sym, value: string) {
    match s.Type()
    case Boolean => value != "m"
    case Tristate => true
    case StringType => '\n' !in value
    case _ => StringValid(s.Type(), value)
  }

  lemma {:induction false} FirstIndex(a: string, ch: char, rest: string)
    requires ch !in a
    ensures IndexOf(a + [ch] + rest, ch) == Some(|a|)
  {
    var s := a + [ch] + rest;
    if a != "" {
      assert s[1..] == a[1..] + [ch] + rest && s[0] == a[0];
      FirstIndex(a[1..], ch, rest);
    }
  }

  // The first line of a text.
  lemma LinesCut(line: string, rest: string)
    requires '\n' !in line
    ensures Lines(line + ['\n'] + rest) == [line + ['\n']] + Lines(rest)
  {
    FirstIndex(line, '\n', rest);
    var text := line + ['\n'] + rest;
    assert text[..|line| + 1] == line + ['\n'] && text[|line| + 1..] == rest;
  }

  lemma ChompLine(value: string)
    requires '\n' !in value && (value != "" ==> value[|value| - 1] != '\r')
    ensures Chomp(value + "\n") == value
  {
    FirstIndex(value, '\n', "");
    assert value + ['\n'] + "" == value + "\n";
    assert (value + "\n")[..|value|] == value;
  }

  lemma ParseSetting(name: string, text: string)
    requires '=' !in name
    ensures ParseLine("CONFIG_" + name + "=" + text) == Setting(name, Chomp(text))
  {
    var q := name + ['='] + text;
    var line := "CONFIG_" + name + "=" + text;
    assert line == CONFIG + q;
    assert line[..|CONFIG|] == CONFIG && line[|CONFIG|..] == q;
    FirstIndex(name, '=', text);
    assert q[..|name|] == name && q[|name| + 1..] == text;
  }

  lemma ParseUnset(name: string)
    requires ' ' !in name
    ensures ParseLine("# CONFIG_" + name + " is not set\n") == Unset(name)
  {
    var q := name + [' '] + "is not set\n";
    Regroup("# CONFIG_", name, " is not set\n");
    Regroup("# ", CONFIG, q);
    assert name + " is not set\n" == q && "# CONFIG_" == "# " + CONFIG;
    assert ("# " + (CONFIG + q))[2..] == CONFIG + q;
    ParseUnsetComment(name);
  }

  lemma ParseUnsetComment(name: string)
    requires ' ' !in name
    ensures ParseComment(CONFIG + (name + [' '] + "is not set\n")) == Unset(name)
  {
    var q := name + [' '] + "is not set\n";
    assert (CONFIG + q)[..|CONFIG|] == CONFIG && (CONFIG + q)[|CONFIG|..] == q;
    FirstIndex(name, ' ', "is not set\n");
    assert q[..|name|] == name && q[|name| + 1..] == UNSET + "\n";
    assert (UNSET + "\n")[..|UNSET|] == UNSET;
  }

  // Int and hex values that no line break cuts short.
  predicate IsOneLine(s: Sym, value: string) {
    s.Type().IntType? || s.Type().HexType? ==> '\n' !in value && '\r' !in value
  }

  /** Reading a printed line back stores the value printed if it is writable;
      if it is not, the line has no effect. */
  lemma LineRoundTrip(table: map<string, Sym>, st: SavedValues, s: Sym, value: string)
    requires IsKnown(table, s) && !s.Type().Unknown? && IsValueOf(s, value)
    ensures IsWritable(s, value) ==> ReadLine(table, st, PrintSymbol(s, value)) == st[s := Meant(s, value)]
    ensures !IsWritable(s, value) && IsOneLine(s, value) ==> ReadLine(table, st, PrintSymbol(s, value)) == st
  {
    hide ParseLine, ParseValue, PrintSymbol, StringValid, Meant;
    PrintedEntry(s, value);
    PrintedValue(s, value);
  }

  // The text printed after the name, without the end of the line.
  function Printed(s: Sym, value: string): string {
    if s.Type().StringType? then Escape(value) else value
  }

  lemma PrintedEntry(s: Sym, value: string)
    requires s.Named? && ' ' !in s.name && '=' !in s.name && !s.Type().Unknown? && IsValueOf(s, value)
    ensures ParseLine(PrintSymbol(s, value))
         == if s.IsLogical() && value == "n" then Unset(s.name)
            else Setting(s.name, Chomp(Printed(s, value) + "\n"))
  {
    hide ParseLine, Chomp, Escape;
    if s.IsLogical() && value == "n" {
      ParseUnset(s.name);
    } else {
      ParseSetting(s.name, Printed(s, value) + "\n");
      Regroup("CONFIG_" + s.name + "=", Printed(s, value), "\n");
    }
  }

  lemma PrintedValue(s: Sym, value: string)
    requires !s.Type().Unknown? && IsValueOf(s, value)
    ensures s.IsLogical() && value == "n" ==> IsWritable(s, value) && Meant(s, value) == SavedTri(NO)
    ensures var r := ParseValue(s.Type(), Chomp(Printed(s, value) + "\n"));
      && (IsWritable(s, value) ==> r == Some(Meant(s, value)))
      && (!IsWritable(s, value) && IsOneLine(s, value) ==> r.None?)
  {
    if s.Type().StringType? {
      hide ParseValue, Chomp, Escape;
      QuotedRoundTrip(value);
    } else {
      hide ParseValue, Chomp, StringValid;
      PlainRoundTrip(s, value);
    }
  }

  lemma QuotedRoundTrip(value: string)
    ensures ParseValue(StringType, Chomp(Escape(value) + "\n"))
         == if '\n' in value then None else Some(SavedText(value))
  {
    var body := EscapeBody(value);
    if '\n' !in value {
      BodyNewlines(value);
      ChompLine(Escape(value));
      assert Escape(value)[1..] == body + "\"";
      UnescapeUndoesEscape(value, "");
      assert body + "\"" + "" == body + "\"";
    } else {
      CutQuoted(value);
    }
  }

  lemma {:induction false} BodyNewlines(s: string)
    ensures '\n' in EscapeBody(s) <==> '\n' in s
  {
    if s != "" {
      BodyNewlines(s[..|s| - 1]);
      assert s == s[..|s| - 1] + [s[|s| - 1]];
    }
  }

  lemma {:induction false} BodyConcat(a: string, b: string)
    ensures EscapeBody(a + b) == EscapeBody(a) + EscapeBody(b)
  {
    if b == "" {
      assert a + b == a;
    } else {
      assert (a + b)[..|a + b| - 1] == a + b[..|b| - 1];
      BodyConcat(a, b[..|b| - 1]);
    }
  }

  // The line ends within the quotes.
  lemma CutQuoted(value: string)
    requires '\n' in value
    ensures ParseValue(StringType, Chomp(Escape(value) + "\n")).None?
  {
    var i := IndexOf(value, '\n').value;
    var a, b := value[..i], value[i + 1..];
    assert value == a + ("\n" + b);
    BodyNewlines(a);
    CutAt(a, b);
    CutBody(a);
  }

  lemma CutAt(a: string, b: string)
    requires '\n' !in EscapeBody(a)
    ensures var q, p := "\"" + EscapeBody(a), Chomp(Escape(a + ("\n" + b)) + "\n");
      p == q || (q[|q| - 1] == '\r' && p == q[..|q| - 1])
  {
    var x, y := EscapeBody(a), EscapeBody(b);
    BodyConcat(a, "\n" + b);
    BodyConcat("\n", b);
    assert EscapeBody("\n") == "\n" by { assert "\n"[..0] == ""; }
    hide EscapeBody, Chomp;
    SpreadOut(x, y);
    ChompAt("\"" + x, y + "\"" + "\n");
  }

  lemma SpreadOut(x: string, y: string)
    ensures "\"" + (x + ("\n" + y)) + "\"" + "\n" == ("\"" + x) + ['\n'] + (y + "\"" + "\n")
  {}

  lemma ChompAt(q: string, rest: string)
    requires '\n' !in q && q != ""
    ensures Chomp(q + ['\n'] + rest) == if q[|q| - 1] == '\r' then q[..|q| - 1] else q
  {
    hide IndexOf;
    FirstIndex(q, '\n', rest);
    var p := q + ['\n'] + rest;
    assert p[..|q|] == q && p[..|q| - 1] == q[..|q| - 1] && p[|q| - 1] == q[|q| - 1];
  }

  // Whether or not a carriage return is removed.
  lemma CutBody(a: string)
    ensures var q := "\"" + EscapeBody(a);
      && ParseValue(StringType, q).None?
      && (q[|q| - 1] == '\r' ==> ParseValue(StringType, q[..|q| - 1]).None?)
  {
    var q, body := "\"" + EscapeBody(a), EscapeBody(a);
    BodyIsUndone(a, "");
    assert q[1..] == body && body + "" == body;
    if q[|q| - 1] == '\r' {
      var a' := a[..|a| - 1];
      BodyIsUndone(a', "");
      assert body == EscapeBody(a') + "\r";
      assert q[..|q| - 1] == "\"" + EscapeBody(a') && q[..|q| - 1][1..] == EscapeBody(a');
      assert EscapeBody(a') + "" == EscapeBody(a');
    }
  }

  lemma PlainRoundTrip(s: Sym, value: string)
    requires !s.Type().StringType? && !s.Type().Unknown? && IsValueOf(s, value)
    ensures IsWritable(s, value) ==> ParseValue(s.Type(), Chomp(value + "\n")) == Some(Meant(s, value))
    ensures !IsWritable(s, value) && IsOneLine(s, value) ==> ParseValue(s.Type(), Chomp(value + "\n")).None?
  {
    if s.IsLogical() {
      ChompLine(value);
    } else {
      if StringValid(s.Type(), value) {
        ValidIsOneLine(s.Type(), value);
      }
      if '\n' !in value && '\r' !in value {
        ChompLine(value);
      }
    }
  }

  lemma ValidIsOneLine(t: SymType, value: string)
    requires (t.IntType? || t.HexType?) && StringValid(t, value)
    ensures '\n' !in value && '\r' !in value
  {
    forall i | 0 <= i < |value| ensures value[i] != '\n' && value[i] != '\r' {
      if t.IntType? {
        var digits := if value[0] == '-' then value[1..] else value;
        assert i > 0 && value[0] == '-' ==> value[i] == digits[i - 1];
      } else {
        var skip := if |value| >= 2 && value[0] == '0' && (value[1] == 'x' || value[1] == 'X') then 2 else 0;
        var digits := value[skip..];
        assert i >= skip ==> value[i] == digits[i - skip];
      }
    }
  }
}
