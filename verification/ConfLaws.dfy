/** What the reader makes of a line of a configuration file, by the form of the
    line and the type of the symbol. */
module ConfLaws {
  import opened Options
  import opened Sequences
  import opened Exprs
  import opened ConfText
  import opened ConfLines

  // ---------- the values of int and hex symbols ----------

  function Digit(d: nat): char
    requires d < 10
  {
    "0123456789"[d]
  }

  function Decimal(n: nat): string {
    if n < 10 then [Digit(n)] else Decimal(n / 10) + [Digit(n % 10)]
  }

  lemma {:induction false} DecimalIsNumber(n: nat)
    ensures ConfText.IsNumber(Decimal(n)) && (n > 0 ==> Decimal(n)[0] != '0')
  {
    if n >= 10 {
      DecimalIsNumber(n / 10);
      var x := Decimal(n / 10);
      assert Decimal(n)[0] == x[0];
    }
  }

  lemma {:induction false} NumberIsDecimal(x: string) returns (n: nat)
    requires ConfText.IsNumber(x)
    ensures x == Decimal(n)
  {
    hide Decimal, Digit;
    var k := |x| - 1;
    var d := DigitOf(x[k]);
    if k == 0 {
      n := d;
      OneDigit(d);
    } else {
      assert x[..k][0] == x[0] && x == x[..k] + [x[k]];
      var m := NumberIsDecimal(x[..k]);
      OneDigit(0);
      n := 10 * m + d;
      MoreDigits(m, d);
    }
  }

  lemma DigitOf(ch: char) returns (d: nat)
    requires IsDigit(ch)
    ensures d < 10 && Digit(d) == ch
  {
    d := ch as int - '0' as int;
  }

  lemma OneDigit(d: nat)
    requires d < 10
    ensures Decimal(d) == [Digit(d)] && Digit(0) == '0'
  {}

  lemma MoreDigits(m: nat, d: nat)
    requires m > 0 && d < 10
    ensures Decimal(10 * m + d) == Decimal(m) + [Digit(d)]
  {
    hide Digit;
    assert (10 * m + d) / 10 == m && (10 * m + d) % 10 == d;
  }

  // A decimal integer without leading zeros.
  ghost predicate IsInteger(x: string) { exists n :: x == Decimal(n) || x == "-" + Decimal(n) }

  // At least one hexadecimal digit, with or without 0x in front.
  ghost predicate IsHexadecimal(x: string) {
    exists y :: AreHexDigits(y) && (x == y || x == "0x" + y || x == "0X" + y)
  }

  predicate AreHexDigits(y: string) {
    y != "" && forall i :: 0 <= i < |y| ==> y[i] in "0123456789abcdefABCDEF"
  }

  /** The values an int symbol can take... */
  lemma IntegersAreValid(x: string)
    ensures StringValid(IntType, x) <==> IsInteger(x)
  {
    if StringValid(IntType, x) {
      if x != "" && x[0] == '-' {
        var n := NumberIsDecimal(x[1..]);
        assert x == "-" + Decimal(n);
      } else {
        var n := NumberIsDecimal(x);
      }
    }
    if IsInteger(x) {
      var n :| x == Decimal(n) || x == "-" + Decimal(n);
      DecimalIsNumber(n);
      assert ("-" + Decimal(n))[1..] == Decimal(n);
    }
  }

  lemma HexDigitsAre(ch: char)
    ensures IsHexDigit(ch) <==> ch in "0123456789abcdefABCDEF"
  {
    var all := "0123456789abcdefABCDEF";
    if IsHexDigit(ch) {
      var base := if IsDigit(ch) then 0 else if ch <= 'F' then 16 else 10;
      var first := if IsDigit(ch) then '0' else if ch <= 'F' then 'A' else 'a';
      assert all[base + (ch as int - first as int)] == ch;
    }
  }

  /** ...and those of a hex symbol. */
  lemma HexadecimalsAreValid(x: string)
    ensures StringValid(HexType, x) <==> IsHexadecimal(x)
  {
    if StringValid(HexType, x) {
      HexadecimalIsValid(x, if HasPrefix(x) then x[2..] else x);
    }
    if IsHexadecimal(x) {
      var y :| AreHexDigits(y) && (x == y || x == "0x" + y || x == "0X" + y);
      HexadecimalIsValid(x, y);
    }
  }

  predicate HasPrefix(x: string) { |x| >= 2 && x[0] == '0' && (x[1] == 'x' || x[1] == 'X') }

  lemma HexadecimalIsValid(x: string, y: string)
    ensures HasPrefix(x) && y == x[2..] ==> x == "0x" + y || x == "0X" + y
    ensures x == "0x" + y || x == "0X" + y ==> HasPrefix(x) && y == x[2..]
    ensures AreHexDigits(y) <==> y != "" && AllHexDigits(y)
    ensures AreHexDigits(x) ==> !HasPrefix(x)
  {
    HexDigitsOf(x);
    HexDigitsOf(y);
    hide AreHexDigits;
  }

  lemma HexDigitsOf(y: string)
    ensures AreHexDigits(y) <==> y != "" && AllHexDigits(y)
  {
    hide IsHexDigit;
    forall i | 0 <= i < |y| ensures IsHexDigit(y[i]) <==> y[i] in "0123456789abcdefABCDEF" {
      HexDigitsAre(y[i]);
    }
  }

  // ---------- quoted text ----------

  /** q stands for the text x between quotes: a backslash and a character, or a
      character that is neither a backslash nor a quote. */
  predicate StandsFor(q: string, x: string) {
    if q == "" then x == ""
    else if q[0] == '\\' then |q| > 1 && x != "" && x[0] == q[1] && StandsFor(q[2..], x[1..])
    else q[0] != '"' && x != "" && x[0] == q[0] && StandsFor(q[1..], x[1..])
  }

  lemma {:induction false} UnescapeStands(q: string, x: string, rest: string)
    requires StandsFor(q, x)
    ensures Unescape(q + "\"" + rest) == Some(x)
  {
    var t := q + "\"" + rest;
    if q == "" {
    } else if q[0] == '\\' {
      UnescapeStands(q[2..], x[1..], rest);
      assert t[2..] == q[2..] + "\"" + rest && x == [x[0]] + x[1..];
    } else {
      UnescapeStands(q[1..], x[1..], rest);
      assert t[1..] == q[1..] + "\"" + rest && x == [x[0]] + x[1..];
    }
  }

  lemma {:induction false} UnescapedStands(t: string) returns (q: string, rest: string)
    requires Unescape(t).Some?
    ensures t == q + "\"" + rest && StandsFor(q, Unescape(t).value)
  {
    if t[0] == '"' {
      q, rest := "", t[1..];
    } else if t[0] == '\\' {
      q, rest := UnescapedStands(t[2..]);
      assert t == t[..2] + t[2..] && (t[..2] + q)[2..] == q && Unescape(t).value[1..] == Unescape(t[2..]).value;
      q := t[..2] + q;
    } else {
      q, rest := UnescapedStands(t[1..]);
      assert t == t[..1] + t[1..] && (t[..1] + q)[1..] == q && Unescape(t).value[1..] == Unescape(t[1..]).value;
      q := t[..1] + q;
    }
  }

  /** What is read between quotes is what stands there, up to the first quote
      without a backslash. */
  lemma UnescapeIsExact(t: string, x: string)
    ensures Unescape(t) == Some(x) <==> exists q, rest :: t == q + "\"" + rest && StandsFor(q, x)
  {
    if Unescape(t) == Some(x) {
      var q, rest := UnescapedStands(t);
    }
    forall q, rest | t == q + "\"" + rest && StandsFor(q, x) ensures Unescape(t) == Some(x) {
      UnescapeStands(q, x, rest);
    }
  }

  /** Only quotes and backslashes are escaped. */
  lemma EscapedCharacter(ch: char)
    ensures Escape([ch]) == if ch == '"' then "\"\\\"\"" else if ch == '\\' then "\"\\\\\"" else ['"', ch, '"']
  {
    assert [ch][..0] == "" && EscapeBody([ch]) == EscapeBody("") + EscapeChar(ch);
  }

  // ---------- lines ----------

  // The text of a line ends with the line.
  predicate IsEnd(text: string, eol: string) {
    && '\n' !in text && eol in {"", "\n", "\r\n"}
    && (eol == "\n" && text != "" ==> text[|text| - 1] != '\r')
  }

  lemma ChompEnd(text: string, eol: string)
    requires IsEnd(text, eol)
    ensures Chomp(text + eol) == text
  {
    if eol == "" {
      assert text + "" == text;
      assert IndexOf(text, '\n').None?;
    } else if eol == "\n" {
      ChompLine(text);
    } else {
      FirstIndex(text + "\r", '\n', "");
      var p := text + eol;
      assert p == text + "\r" + ['\n'] + "" && p[|text|] == '\r' && p[..|text|] == text;
    }
  }

  lemma CutPrefix(line: string, x: string)
    requires StartsWith(line, x)
    ensures line == x + line[|x|..]
  {
    assert line == line[..|x|] + line[|x|..];
  }

  lemma CutAt(q: string, i: nat)
    requires i < |q|
    ensures q == q[..i] + ([q[i]] + q[i + 1..])
  {}

  /** The lines that set a symbol... */
  lemma SettingsExactly(line: string, name: string, text: string)
    ensures ParseLine(line) == Setting(name, text) <==>
      '=' !in name && exists rest :: line == "CONFIG_" + name + "=" + rest && Chomp(rest) == text
  {
    hide Chomp, IndexOf, ParseComment;
    if ParseLine(line) == Setting(name, text) {
      CommentIsNoSetting(if |line| > 2 then line[2..] else "");
      var q := line[|CONFIG|..];
      var i := IndexOf(q, '=').value;
      CutPrefix(line, CONFIG);
      CutAt(q, i);
      Regroup(CONFIG, name, "=" + q[i + 1..]);
      Regroup(CONFIG + name, "=", q[i + 1..]);
    }
    hide ParseLine;
    if '=' !in name {
      forall rest | line == "CONFIG_" + name + "=" + rest ensures ParseLine(line) == Setting(name, Chomp(rest)) {
        ParseSetting(name, rest);
      }
    }
  }

  lemma CommentIsNoSetting(s: string)
    ensures !ParseComment(s).Setting?
  {}

  /** ...and those that say that it is not set. */
  lemma UnsetsExactly(line: string, name: string)
    ensures ParseLine(line) == Unset(name) <==>
      ' ' !in name && |line| > 2 && line[0] == '#'
      && exists rest :: line[2..] == "CONFIG_" + name + " is not set" + rest
  {
    hide ParseComment;
    if line != "" && line[0] == '#' {
      CommentsExactly(if |line| > 2 then line[2..] else "", name);
    }
  }

  lemma CommentsExactly(s: string, name: string)
    ensures ParseComment(s) == Unset(name) <==>
      ' ' !in name && exists rest :: s == "CONFIG_" + name + " is not set" + rest
  {
    if ParseComment(s) == Unset(name) {
      UnsetCut(s, name);
    }
    hide ParseComment;
    if ' ' !in name {
      forall rest | s == "CONFIG_" + name + " is not set" + rest ensures ParseComment(s) == Unset(name) {
        UnsetPrefix(name, rest);
      }
    }
  }

  lemma UnsetCut(s: string, name: string)
    requires ParseComment(s) == Unset(name)
    ensures ' ' !in name && exists rest :: s == "CONFIG_" + name + " is not set" + rest
  {
    hide IndexOf;
    var p, rest := UnsetParts(s, name);
    UnsetWords();
    Ungroup(CONFIG, name, " ", UNSET, " is not set", rest);
  }

  lemma UnsetParts(s: string, name: string) returns (p: string, rest: string)
    requires ParseComment(s) == Unset(name)
    ensures ' ' !in name && p == UNSET + rest && s == CONFIG + (name + (" " + p))
  {
    hide IndexOf;
    var q := s[|CONFIG|..];
    var i := IndexOf(q, ' ').value;
    p := q[i + 1..];
    CutPrefix(s, CONFIG);
    CutAt(q, i);
    CutPrefix(p, UNSET);
    rest := p[|UNSET|..];
  }

  lemma UnsetWords()
    ensures " " + UNSET == " is not set"
  {}

  lemma Ungroup(a: string, b: string, c: string, d: string, w: string, e: string)
    requires c + d == w
    ensures a + (b + (c + (d + e))) == a + b + w + e
  {
    Regroup(c, d, e);
    Regroup(b, c + d, e);
    Regroup(a, b + (c + d), e);
    Regroup(a, b, c + d);
  }

  lemma UnsetPrefix(name: string, rest: string)
    requires ' ' !in name
    ensures ParseComment("CONFIG_" + name + " is not set" + rest) == Unset(name)
  {
    var q, s := name + [' '] + (UNSET + rest), "CONFIG_" + name + " is not set" + rest;
    assert s == CONFIG + q && s[..|CONFIG|] == CONFIG && s[|CONFIG|..] == q;
    FirstIndex(name, ' ', UNSET + rest);
    assert q[..|name|] == name && q[|name| + 1..] == UNSET + rest && (UNSET + rest)[..|UNSET|] == UNSET;
  }

  // The table has the symbol under its name, which is not that of a constant.
  predicate IsListed(table: map<string, Sym>, s: Sym) {
    s.Named? && s.name in table && table[s.name] == s && s.name !in {"y", "m", "n"}
  }

  ghost predicate IsSettingOf(line: string, s: Sym, text: string) {
    s.Named? && '=' !in s.name && exists eol :: IsEnd(text, eol) && line == "CONFIG_" + s.name + "=" + text + eol
  }

  lemma SettingIsStored(table: map<string, Sym>, st: SavedValues, line: string, s: Sym, text: string)
    requires IsListed(table, s) && IsSettingOf(line, s, text)
    ensures var v := ParseValue(s.Type(), text);
      ReadLine(table, st, line) == if v.Some? then st[s := v.value] else st
  {
    hide ParseLine, ParseValue, Chomp;
    var eol :| IsEnd(text, eol) && line == "CONFIG_" + s.name + "=" + text + eol;
    Regroup("CONFIG_" + s.name + "=", text, eol);
    ParseSetting(s.name, text + eol);
    ChompEnd(text, eol);
  }

  predicate Begins(text: string, ch: char) { text != "" && text[0] == ch }

  /** A bool or tristate symbol is set by the first letter; only tristate symbols
      can be m, and other letters have no effect. */
  lemma LettersAreRead(table: map<string, Sym>, st: SavedValues, line: string, s: Sym, text: string)
    requires IsListed(table, s) && IsSettingOf(line, s, text) && s.IsLogical()
    ensures ReadLine(table, st, line) ==
      if Begins(text, 'y') then st[s := SavedTri(YES)]
      else if Begins(text, 'n') then st[s := SavedTri(NO)]
      else if Begins(text, 'm') && s.Type() == Tristate then st[s := SavedTri(MOD)]
      else st
  {
    SettingIsStored(table, st, line, s, text);
  }

  /** A string symbol is set to what stands between quotes; text without an
      opening or a closing quote has no effect. */
  lemma QuotesAreRead(table: map<string, Sym>, st: SavedValues, line: string, s: Sym, text: string)
    requires IsListed(table, s) && IsSettingOf(line, s, text) && s.Type() == StringType
    ensures forall x, q, rest :: text == "\"" + (q + "\"" + rest) && StandsFor(q, x) ==>
      ReadLine(table, st, line) == st[s := SavedText(x)]
    ensures (forall x, q, rest :: StandsFor(q, x) ==> text != "\"" + (q + "\"" + rest)) ==>
      ReadLine(table, st, line) == st
  {
    hide ReadLine, StandsFor;
    SettingIsStored(table, st, line, s, text);
    forall x, q, rest | text == "\"" + (q + "\"" + rest) && StandsFor(q, x)
      ensures ReadLine(table, st, line) == st[s := SavedText(x)]
    {
      UnescapeStands(q, x, rest);
      assert text[1..] == q + "\"" + rest;
    }
    if ParseValue(s.Type(), text).Some? {
      var q, rest := UnescapedStands(text[1..]);
      assert text == "\"" + (q + "\"" + rest);
    }
  }

  /** An int or hex symbol is set to a valid number, as it is spelled. */
  lemma NumbersAreRead(table: map<string, Sym>, st: SavedValues, line: string, s: Sym, text: string)
    requires IsListed(table, s) && IsSettingOf(line, s, text) && s.Type() in {IntType, HexType}
    ensures ReadLine(table, st, line) ==
      if (if s.Type() == IntType then IsInteger(text) else IsHexadecimal(text)) then st[s := SavedText(text)] else st
  {
    hide ReadLine, StringValid, IsInteger, IsHexadecimal;
    SettingIsStored(table, st, line, s, text);
    IntegersAreValid(text);
    HexadecimalsAreValid(text);
  }

  /** "is not set" sets a known bool or tristate symbol to n. */
  lemma UnsetIsStored(table: map<string, Sym>, st: SavedValues, s: Sym, ch: char, rest: string)
    requires IsListed(table, s) && ' ' !in s.name
    ensures ReadLine(table, st, ['#', ch] + ("CONFIG_" + s.name + " is not set" + rest))
         == if s.Type() in {Boolean, Tristate} then st[s := SavedTri(NO)] else st
  {
    var line := ['#', ch] + ("CONFIG_" + s.name + " is not set" + rest);
    assert line[2..] == "CONFIG_" + s.name + " is not set" + rest;
    UnsetsExactly(line, s.name);
    hide ParseLine;
  }

  /** Lines about unknown symbols, lines about symbols without a type, and lines
      of any other form have no effect. */
  lemma OthersAreIgnored(table: map<string, Sym>, st: SavedValues, line: string)
    requires var e := ParseLine(line);
      e.NoEntry? || e.name in {"y", "m", "n"} || e.name !in table || table[e.name].Type() == Unknown
    ensures ReadLine(table, st, line) == st
  {
    hide ParseLine;
  }

  /** The last line needs no newline. */
  lemma LastLine(table: map<string, Sym>, st: SavedValues, line: string)
    requires '\n' !in line && line != ""
    ensures ReadText(table, st, line) == ReadLine(table, st, line)
  {
    assert IndexOf(line, '\n').None? && Lines(line) == [line];
    hide ReadLine, Lines;
    assert [line][1..] == [];
    assert ReadLines(table, ReadLine(table, st, line), []) == ReadLine(table, st, line);
  }
}
