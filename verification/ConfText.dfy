/** The text of a configuration file: how a symbol is printed and read back. */
module ConfText {
  import opened Options
  import opened Sequences
  import opened Exprs

  // ---------- quoting ----------

  predicate IsSpecial(ch: char) { ch == '"' || ch == '\\' }

  function EscapeBody(s: string): string {
    if s == "" then "" else EscapeBody(s[..|s| - 1]) + EscapeChar(s[|s| - 1])
  }

  function EscapeChar(ch: char): string { if IsSpecial(ch) then ['\\', ch] else [ch] }

  /** sym_escape_string_value */
  function Escape(s: string): string { "\"" + EscapeBody(s) + "\"" }

  // The text up to the closing quote, if there is one.
  function Unescape(s: string): Option<string> {
    if s == "" then None
    else if s[0] == '"' then Some("")
    else if s[0] == '\\' then (if |s| == 1 then None else Push(s[1], Unescape(s[2..])))
    else Push(s[0], Unescape(s[1..]))
  }

  function Push(ch: char, r: Option<string>): Option<string> {
    if r.Some? then Some([ch] + r.value) else None
  }

  function PushAll(x: string, r: Option<string>): Option<string> {
    if r.Some? then Some(x + r.value) else None
  }

  /** Unescaping inverts escaping, whatever follows the closing quote. */
  lemma {:induction false} UnescapeUndoesEscape(s: string, rest: string)
    ensures Unescape(EscapeBody(s) + "\"" + rest) == Some(s)
  {
    BodyIsUndone(s, "\"" + rest);
    assert EscapeBody(s) + "\"" + rest == EscapeBody(s) + ("\"" + rest);
    assert s + "" == s;
  }

  lemma {:induction false} BodyIsUndone(s: string, rest: string)
    ensures Unescape(EscapeBody(s) + rest) == PushAll(s, Unescape(rest))
  {
    if s == "" {
      assert EscapeBody(s) == "" && "" + rest == rest;
      hide Unescape, EscapeBody;
      PushNone(Unescape(rest));
    } else {
      var body, ch := s[..|s| - 1], s[|s| - 1];
      assert EscapeBody(s) == EscapeBody(body) + EscapeChar(ch);
      BodyIsUndone(body, EscapeChar(ch) + rest);
      Regroup(EscapeBody(body), EscapeChar(ch), rest);
      CharIsUndone(ch, rest);
      hide Unescape, EscapeBody, EscapeChar;
      assert s == body + [ch];
      PushOne(body, ch, Unescape(rest));
    }
  }

  lemma PushNone(r: Option<string>)
    ensures PushAll("", r) == r
  {
    assert r.Some? ==> "" + r.value == r.value;
  }

  lemma PushOne(body: string, ch: char, r: Option<string>)
    ensures PushAll(body, Push(ch, r)) == PushAll(body + [ch], r)
  {
    assert r.Some? ==> body + ([ch] + r.value) == body + [ch] + r.value;
  }

  lemma CharIsUndone(ch: char, rest: string)
    ensures Unescape(EscapeChar(ch) + rest) == Push(ch, Unescape(rest))
  {
    var x := EscapeChar(ch) + rest;
    if IsSpecial(ch) {
      assert x[2..] == rest;
    } else {
      assert x[1..] == rest;
    }
  }

  // ---------- values ----------

  predicate IsDigit(ch: char) { '0' <= ch <= '9' }

  predicate IsHexDigit(ch: char) { IsDigit(ch) || 'a' <= ch <= 'f' || 'A' <= ch <= 'F' }

  predicate AllDigits(s: string) { forall i :: 0 <= i < |s| ==> IsDigit(s[i]) }

  predicate AllHexDigits(s: string) { forall i :: 0 <= i < |s| ==> IsHexDigit(s[i]) }

  predicate IsNumber(s: string) { s != "" && AllDigits(s) && (s[0] == '0' ==> |s| == 1) }

  // sym_string_valid
  predicate StringValid(t: SymType, s: string) {
    match t
    case StringType => true
    case IntType => IsNumber(if s != "" && s[0] == '-' then s[1..] else s)
    case HexType =>
      var digits := if |s| >= 2 && s[0] == '0' && (s[1] == 'x' || s[1] == 'X') then s[2..] else s;
      digits != "" && AllHexDigits(digits)
    case Boolean | Tristate => s != "" && s[0] in "yYmMnN"
    case Unknown => false
  }

  // A value read from a file: def[S_DEF_USER] of a symbol that has SYMBOL_DEF_USER.
  datatype Saved = SavedTri(tri: Tri) | SavedText(text: string)

  /** conf_set_sym_val: what is stored for the text p, if anything. */
  function ParseValue(t: SymType, p: string): Option<Saved> {
    match t
    case Tristate =>
      if p != "" && p[0] == 'm' then Some(SavedTri(MOD)) else ParseBool(p)
    case Boolean => ParseBool(p)
    case StringType =>
      if p == "" || p[0] != '"' then None
      else
        var r := Unescape(p[1..]);
        if r.Some? then Some(SavedText(r.value)) else None
    case IntType | HexType => if StringValid(t, p) then Some(SavedText(p)) else None
    case Unknown => None
  }

  function ParseBool(p: string): Option<Saved> {
    if p != "" && p[0] == 'y' then Some(SavedTri(YES))
    else if p != "" && p[0] == 'n' then Some(SavedTri(NO))
    else None
  }

  // ---------- lines ----------

  const CONFIG: string := "CONFIG_"
  const UNSET: string := "is not set"

  predicate StartsWith(s: string, x: string) { |x| <= |s| && s[..|x|] == x }

  // strchr
  function IndexOf(s: string, ch: char): (i: Option<nat>)
    ensures i.Some? ==> i.value < |s| && s[i.value] == ch && ch !in s[..i.value]
    ensures i.None? ==> ch !in s
  {
    if s == "" then None
    else if s[0] == ch then Some(0)
    else
      var i := IndexOf(s[1..], ch);
      assert s == [s[0]] + s[1..];
      if i.Some? then Some(i.value + 1) else None
  }

  // Without the end of the line.
  function Chomp(p: string): string {
    match IndexOf(p, '\n')
    case None => p
    case Some(i) => if i > 0 && p[i - 1] == '\r' then p[..i - 1] else p[..i]
  }

  /** sym_find; symbols are known by their names. */
  function Find(table: map<string, Sym>, name: string): Option<Sym> {
    if name == "y" then Some(SymYes) else if name == "m" then Some(SymMod) else if name == "n" then Some(SymNo)
    else if name in table then Some(table[name]) else None
  }

  // The name and the text after it in a line, if it has the form of a setting.
  datatype Entry = NoEntry | Unset(name: string) | Setting(name: string, text: string)

  function ParseLine(line: string): Entry {
    if line != "" && line[0] == '#' then ParseComment(if |line| > 2 then line[2..] else "")
    else if !StartsWith(line, CONFIG) then NoEntry
    else
      var q := line[|CONFIG|..];
      match IndexOf(q, '=')
      case None => NoEntry
      case Some(i) => Setting(q[..i], Chomp(q[i + 1..]))
  }

  function ParseComment(s: string): Entry {
    if !StartsWith(s, CONFIG) then NoEntry
    else
      var q := s[|CONFIG|..];
      match IndexOf(q, ' ')
      case None => NoEntry
      case Some(i) => if StartsWith(q[i + 1..], UNSET) then Unset(q[..i]) else NoEntry
  }

  type SavedValues = map<Sym, Saved>

  function StoreNo(table: map<string, Sym>, st: SavedValues, name: string): SavedValues {
    var s := Find(table, name);
    if s.Some? && s.value.IsLogical() then st[s.value := SavedTri(NO)] else st
  }

  function StoreText(table: map<string, Sym>, st: SavedValues, name: string, text: string): SavedValues {
    var s := Find(table, name);
    if s.None? then st
    else
      var v := ParseValue(s.value.Type(), text);
      if v.Some? then st[s.value := v.value] else st
  }

  /** One round of the loop of conf_read_simple. */
  function ReadLine(table: map<string, Sym>, st: SavedValues, line: string): SavedValues {
    match ParseLine(line)
    case NoEntry => st
    case Unset(name) => StoreNo(table, st, name)
    case Setting(name, text) => StoreText(table, st, name, text)
  }

  function ReadLines(table: map<string, Sym>, st: SavedValues, lines: seq<string>): SavedValues
    decreases |lines|
  {
    if lines == [] then st else ReadLines(table, ReadLine(table, st, lines[0]), lines[1..])
  }

  /** The lines of a file, with their ends. */
  function Lines(text: string): (ls: seq<string>)
    ensures forall l :: l in ls ==> l != ""
  {
    if text == "" then []
    else
      match IndexOf(text, '\n')
      case None => [text]
      case Some(i) => [text[..i + 1]] + Lines(text[i + 1..])
  }

  function ReadText(table: map<string, Sym>, st: SavedValues, text: string): SavedValues {
    ReadLines(table, st, Lines(text))
  }

  // ---------- printing ----------

  // kconfig_print_symbol
  function PrintText(s: Sym, value: string): string {
    if s.IsLogical() && StartsWith(value, "n") then "# CONFIG_" + s.Name() + " is not set\n"
    else "CONFIG_" + s.Name() + "=" + value + "\n"
  }

  // conf_write_symbol
  function PrintSymbol(s: Sym, value: string): string {
    match s.Type()
    case Unknown => ""
    case StringType => PrintText(s, Escape(value))
    case _ => PrintText(s, value)
  }

  /** The value that printing is meant to save. */
  function Meant(s: Sym, value: string): Saved {
    if s.IsLogical() then SavedTri(if value == "y" then YES else if value == "m" then MOD else NO)
    else SavedText(value)
  }
}
