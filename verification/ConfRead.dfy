/** conf_read_simple: lines are taken apart and unescaped in their buffer. */
module ConfRead {
  import opened Options
  import opened Sequences
  import opened Exprs
  import opened ConfText
  import opened ConfLines

  const NUL: char := '\0'

  /** The text s, followed by a NUL, is at position p of the buffer. */
  ghost predicate IsText(a: array<char>, p: nat, s: string)
    reads a
  {
    p + |s| < a.Length && a[p..p + |s|] == s && a[p + |s|] == NUL && NUL !in s
  }

  lemma TextFrom(a: array<char>, p: nat, s: string, k: nat)
    requires IsText(a, p, s) && k <= |s|
    ensures IsText(a, p + k, s[k..])
  {
    assert a[p + k..p + |s|] == a[p..p + |s|][k..];
  }

  // strlen
  method StrLen(a: array<char>, p: nat, ghost s: string) returns (n: nat)
    requires IsText(a, p, s)
    ensures n == |s|
  {
    n := 0;
    while a[p + n] != NUL
      invariant n <= |s|
      decreases |s| - n
    {
      assert a[p..p + |s|][n] == s[n];
      n := n + 1;
    }
  }

  // strchr, as an offset
  method StrChr(a: array<char>, p: nat, ch: char, ghost s: string) returns (i: Option<nat>)
    requires IsText(a, p, s) && ch != NUL
    ensures i == IndexOf(s, ch)
  {
    hide IndexOf;
    var n := StrLen(a, p, s);
    var k := 0;
    assert s[0..] == s;
    while k < n
      invariant k <= n && IndexOf(s, ch) == Shifted(k, IndexOf(s[k..], ch))
    {
      assert a[p..p + |s|][k] == s[k];
      IndexStep(s, k, ch);
      if a[p + k] == ch {
        return Some(k);
      }
      k := k + 1;
    }
    IndexOfNone(ch);
    assert s[k..] == "";
    return None;
  }

  lemma IndexStep(s: string, k: nat, ch: char)
    requires k < |s|
    ensures IndexOf(s[k..], ch) == if s[k] == ch then Some(0) else Shifted(1, IndexOf(s[k + 1..], ch))
  {
    assert s[k..][1..] == s[k + 1..];
  }

  lemma IndexOfNone(ch: char)
    ensures IndexOf("", ch) == None
  {}

  function Shifted(k: nat, i: Option<nat>): Option<nat> { if i.Some? then Some(k + i.value) else None }

  // strpbrk(p, "\"\\"), as an offset
  method FindSpecial(a: array<char>, p: nat, ghost s: string) returns (i: Option<nat>)
    requires IsText(a, p, s)
    ensures i.Some? ==> i.value < |s| && IsSpecial(s[i.value]) && forall j :: 0 <= j < i.value ==> !IsSpecial(s[j])
    ensures i.None? ==> forall j :: 0 <= j < |s| ==> !IsSpecial(s[j])
  {
    var n := StrLen(a, p, s);
    var k := 0;
    while k < n
      invariant k <= n && forall j :: 0 <= j < k ==> !IsSpecial(s[j])
    {
      assert a[p..p + |s|][k] == s[k];
      if IsSpecial(a[p + k]) {
        return Some(k);
      }
      k := k + 1;
    }
    return None;
  }

  // The text at p as a value, to look it up.
  method TextAt(a: array<char>, p: nat, ghost s: string) returns (t: string)
    requires IsText(a, p, s)
    ensures t == s
  {
    var n := StrLen(a, p, s);
    t := a[p..p + n];
  }

  lemma {:induction false} SkipPlain(s: string, k: nat)
    requires k <= |s| && forall j :: 0 <= j < k ==> !IsSpecial(s[j])
    ensures Unescape(s) == PushAll(s[..k], Unescape(s[k..]))
  {
    if k == 0 {
      assert s[..0] == "" && s[0..] == s;
      assert Unescape(s).Some? ==> "" + Unescape(s).value == Unescape(s).value;
    } else {
      SkipPlain(s[1..], k - 1);
      assert s[1..][k - 1..] == s[k..] && s[..k] == [s[0]] + s[1..][..k - 1];
      var r := Unescape(s[k..]);
      assert r.Some? ==> s[..k] + r.value == [s[0]] + (s[1..][..k - 1] + r.value);
    }
  }

  lemma PushTwice(x: string, y: string, r: Option<string>)
    ensures PushAll(x, PushAll(y, r)) == PushAll(x + y, r)
  {
    if r.Some? {
      Regroup(x, y, r.value);
    }
  }

  // Before p2 the text is unescaped, after it the rest is as it was.
  ghost predicate IsPart(a: array<char>, p: nat, p2: nat, s: string, done: string, rest: string)
    reads a
  {
    && p2 == p + |done| && IsText(a, p2, rest) && a[p..p2] == done
    && Unescape(s) == PushAll(done, Unescape(rest)) && (Unescape(rest).Some? ==> NUL !in done)
  }

  lemma TextFits(a: array<char>, p: nat, s: string)
    requires IsText(a, p, s)
    ensures p <= a.Length
  {}

  lemma PartText(a: array<char>, p: nat, p2: nat, s: string, done: string, rest: string)
    requires IsPart(a, p, p2, s, done, rest)
    ensures IsText(a, p2, rest) && p2 < a.Length
    ensures rest != "" ==> a[p2] == rest[0]
    ensures Unescape(rest).None? ==> Unescape(s).None?
  {
    assert rest != "" ==> a[p2] == a[p2..p2 + |rest|][0];
  }

  lemma WholePart(a: array<char>, p: nat, s: string)
    requires IsText(a, p, s)
    ensures IsPart(a, p, p, s, "", s)
  {
    PushNothing(Unescape(s));
  }

  lemma SkipPart(a: array<char>, p: nat, p2: nat, s: string, done: string, rest: string, k: nat)
    requires IsPart(a, p, p2, s, done, rest) && k <= |rest| && forall j :: 0 <= j < k ==> !IsSpecial(rest[j])
    ensures IsPart(a, p, p2 + k, s, done + rest[..k], rest[k..])
  {
    SkipPlain(rest, k);
    PushTwice(done, rest[..k], Unescape(rest[k..]));
    TextFrom(a, p2, rest, k);
    assert a[p2..p2 + k] == a[p2..p2 + |rest|][..k];
    assert a[p..p2 + k] == a[p..p2] + a[p2..p2 + k];
    hide Unescape;
    assert forall ch :: ch in rest[..k] ==> ch in rest;
  }

  // The closing quote becomes the end of the text.
  method CloseText(a: array<char>, p: nat, p2: nat, ghost s: string, ghost done: string, ghost rest: string)
    requires IsPart(a, p, p2, s, done, rest) && rest != "" && rest[0] == '"'
    modifies a
    ensures Unescape(s) == Some(done) && IsText(a, p, done) && a[..p] == old(a[..p])
  {
    assert Unescape(rest) == Some("") && done + "" == done;
    a[p2] := NUL;
    assert a[p..p2] == old(a[p..p2]);
  }

  // memmove(p2, p2 + 1, strlen(p2)); the character moved is not looked at again.
  method DropBackslash(a: array<char>, p: nat, p2: nat, ghost s: string, ghost done: string, ghost rest: string)
    returns (ghost done': string, ghost rest': string)
    requires IsPart(a, p, p2, s, done, rest) && rest != "" && rest[0] == '\\'
    modifies a
    ensures IsPart(a, p, p2 + 1, s, done', rest') && |rest'| < |rest| && a[..p] == old(a[..p])
  {
    var n := StrLen(a, p2, rest);
    ghost var before := a[..];
    MemMove(a, p2, p2 + 1, n);
    MovedText(before, a, p, p2, rest);
    if |rest| == 1 {
      done', rest' := done + [NUL], "";
    } else {
      done', rest' := done + [rest[1]], rest[2..];
      PushTwice(done, [rest[1]], Unescape(rest[2..]));
    }
  }

  lemma MovedText(before: seq<char>, a: array<char>, p: nat, p2: nat, rest: string)
    requires rest != "" && p <= p2 && p2 + |rest| < |before| == a.Length && NUL !in rest
    requires before[p2..p2 + |rest|] == rest && before[p2 + |rest|] == NUL
    requires a[..] == before[..p2] + before[p2 + 1..p2 + 1 + |rest|] + before[p2 + |rest|..]
    ensures a[..p] == before[..p] && a[p..p2] == before[p..p2]
    ensures |rest| == 1 ==> a[p2] == NUL && IsText(a, p2 + 1, "")
    ensures |rest| > 1 ==> a[p2] == rest[1] && IsText(a, p2 + 1, rest[2..])
  {
    var b := a[..];
    assert a[..p] == b[..p] && a[p..p2] == b[p..p2];
    assert b[p2] == before[p2 + 1] && b[p2 + |rest|] == NUL;
    if |rest| > 1 {
      forall j | 1 <= j < |rest| ensures b[p2 + j - 1] == rest[j] {
        assert before[p2..p2 + |rest|][j] == before[p2 + j];
      }
      assert b[p2 + |rest| - 1] == before[p2 + |rest|];
    }
  }

  /** The loop of conf_set_sym_val over a string: backslashes are removed in
      place, and the closing quote ends the text. */
  method UnescapeInPlace(a: array<char>, p: nat, ghost s: string) returns (closed: bool)
    requires IsText(a, p, s)
    modifies a
    ensures closed == Unescape(s).Some?
    ensures closed ==> IsText(a, p, Unescape(s).value)
    ensures a[..p] == old(a[..p])
  {
    hide Unescape, IsPart, IsText;
    var p2: nat := p;
    ghost var done, rest := "", s;
    assert p <= a.Length by { TextFits(a, p, s); }
    WholePart(a, p, s);
    while true
      invariant p <= a.Length
      invariant IsPart(a, p, p2, s, done, rest) && a[..p] == old(a[..p])
      decreases |rest|
    {
      PartText(a, p, p2, s, done, rest);
      var i := FindSpecial(a, p2, rest);
      if i.None? {
        NoQuote(rest);
        return false;
      }
      SkipPart(a, p, p2, s, done, rest, i.value);
      done, rest := done + rest[..i.value], rest[i.value..];
      p2 := p2 + i.value;
      PartText(a, p, p2, s, done, rest);
      if a[p2] == '"' {
        CloseText(a, p, p2, s, done, rest);
        return true;
      }
      done, rest := DropBackslash(a, p, p2, s, done, rest);
      p2 := p2 + 1;
    }
  }

  lemma NoQuote(rest: string)
    requires forall j :: 0 <= j < |rest| ==> !IsSpecial(rest[j])
    ensures Unescape(rest).None?
  {
    SkipPlain(rest, |rest|);
    assert rest[|rest|..] == "";
  }

  lemma PushNothing(r: Option<string>)
    ensures PushAll("", r) == r
  {
    if r.Some? {
      assert "" + r.value == r.value;
    }
  }

  // memmove within the buffer
  method MemMove(a: array<char>, dst: nat, src: nat, n: nat)
    requires dst + n <= a.Length && src + n <= a.Length
    modifies a
    ensures a[..] == old(a[..dst] + a[src..src + n] + a[dst + n..])
  {
    forall i | 0 <= i < n { a[dst + i] := a[src + i]; }
  }

  class Reader {
    const table: map<string, Sym>
    var saved: SavedValues

    constructor (table: map<string, Sym>)
      ensures this.table == table && saved == map[]
    {
      this.table, this.saved := table, map[];
    }

    // conf_set_sym_val, for the text at p.
    method ConfSetSymVal(s: Sym, a: array<char>, p: nat, ghost text: string)
      requires IsText(a, p, text)
      modifies this, a
      ensures var v := ParseValue(s.Type(), text);
        saved == if v.Some? then old(saved)[s := v.value] else old(saved)
    {
      hide Unescape;
      assert text != "" ==> a[p] == a[p..p + |text|][0] == text[0];
      match s.Type() {
        case Tristate =>
          if a[p] == 'm' {
            saved := saved[s := SavedTri(MOD)];
          } else {
            SetBool(s, a[p], text);
          }
        case Boolean =>
          SetBool(s, a[p], text);
        case StringType =>
          if a[p] != '"' {
            return;
          }
          TextFrom(a, p, text, 1);
          var closed := UnescapeInPlace(a, p + 1, text[1..]);
          if !closed {
            return;
          }
          var value := TextAt(a, p + 1, Unescape(text[1..]).value);
          saved := saved[s := SavedText(value)];
        case IntType | HexType =>
          var value := TextAt(a, p, text);
          if StringValid(s.Type(), value) {
            saved := saved[s := SavedText(value)];
          }
        case Unknown =>
      }
    }

    method SetBool(s: Sym, ch: char, ghost text: string)
      requires if text == "" then ch == NUL else ch == text[0]
      modifies this
      ensures var v := ParseBool(text);
        saved == if v.Some? then old(saved)[s := v.value] else old(saved)
    {
      if ch == 'y' {
        saved := saved[s := SavedTri(YES)];
      } else if ch == 'n' {
        saved := saved[s := SavedTri(NO)];
      }
    }

    /** conf_reset, then the loop over the lines. A line that is a lone '#' is
        looked at beyond its end. */
    method ReadFile(text: string)
      requires NUL !in text && "#" !in Lines(text)
      modifies this
      ensures saved == ReadText(table, map[], text)
    {
      hide IndexOf, ReadLine, Lines, IsText;
      saved := map[];
      var pos := 0;
      assert text[0..] == text && Lines("") == [] by { NoLines(); }
      while pos < |text|
        invariant 0 <= pos <= |text| && "#" !in Lines(text[pos..])
        invariant ReadText(table, map[], text) == ReadLines(table, saved, Lines(text[pos..]))
      {
        ghost var rest := text[pos..];
        var line, a := GetLine(text, pos);
        ReadOneLine(a, line);
        assert rest[|line|..] == text[pos + |line|..];
        assert ([line] + Lines(text[pos + |line|..]))[1..] == Lines(text[pos + |line|..]);
        pos := pos + |line|;
      }
      assert text[pos..] == "";
    }

    /** One round of the loop of conf_read_simple, on the line in the buffer. */
    method ReadOneLine(a: array<char>, ghost line: string)
      requires IsText(a, 0, line) && line != "#"
      modifies this, a
      ensures saved == ReadLine(table, old(saved), line)
    {
      hide Unescape, IndexOf, ParseValue;
      assert line != "" ==> a[0] == a[0..0 + |line|][0] == line[0];
      if a[0] == '#' {
        ReadComment(a, line);
      } else {
        var setting := HasPrefix(a, 0, CONFIG, line);
        if setting {
          ReadSetting(a, line);
        }
      }
    }

    // A line that begins with '#'.
    method ReadComment(a: array<char>, ghost line: string)
      requires IsText(a, 0, line) && |line| > 1 && line[0] == '#'
      modifies this, a
      ensures saved == ReadLine(table, old(saved), line)
    {
      hide IndexOf;
      ghost var s := line[2..];
      TextFrom(a, 0, line, 2);
      CommentLine(table, saved, line);
      hide IsText, ReadLine, Find;
      var config := HasPrefix(a, 2, CONFIG, s);
      if !config {
        return;
      }
      ghost var q := s[|CONFIG|..];
      TextFrom(a, 2, s, |CONFIG|);
      var i := Cut(a, 2 + |CONFIG|, ' ', q);
      if i.None? {
        return;
      }
      var unset := HasPrefix(a, 2 + |CONFIG| + i.value + 1, UNSET, q[i.value + 1..]);
      if !unset {
        return;
      }
      var name := TextAt(a, 2 + |CONFIG|, q[..i.value]);
      var sym := Find(table, name);
      if sym.Some? && sym.value.IsLogical() {
        saved := saved[sym.value := SavedTri(NO)];
      }
    }

    // A line that begins with "CONFIG_".
    method ReadSetting(a: array<char>, ghost line: string)
      requires IsText(a, 0, line) && |CONFIG| <= |line| && StartsWith(line, CONFIG)
      modifies this, a
      ensures saved == ReadLine(table, old(saved), line)
    {
      hide IndexOf, ParseValue, Unescape, IsText, ReadLine, Chomp, Find, StartsWith;
      ghost var q := line[|CONFIG|..];
      SettingLine(table, saved, line);
      TextFrom(a, 0, line, |CONFIG|);
      var i := Cut(a, |CONFIG|, '=', q);
      if i.None? {
        return;
      }
      var p := |CONFIG| + i.value + 1;
      ChompInPlace(a, p, q[i.value + 1..], |CONFIG|, q[..i.value]);
      var name := TextAt(a, |CONFIG|, q[..i.value]);
      var sym := Find(table, name);
      if sym.None? {
        return;
      }
      ConfSetSymVal(sym.value, a, p, Chomp(q[i.value + 1..]));
    }
  }

  // compat_getline: the next line, and a buffer with it.
  method GetLine(text: string, pos: nat) returns (line: string, a: array<char>)
    requires pos < |text| && NUL !in text
    ensures fresh(a) && IsText(a, 0, line) && line != ""
    ensures pos + |line| <= |text|
    ensures Lines(text[pos..]) == [line] + Lines(text[pos..][|line|..])
  {
    hide Lines, IsText;
    line := FirstLine(text[pos..]);
    assert forall ch :: ch in line ==> ch in text;
    a := NewBuffer(line);
  }

  method FirstLine(rest: string) returns (line: string)
    requires rest != ""
    ensures line != "" && |line| <= |rest| && line == rest[..|line|]
    ensures Lines(rest) == [line] + Lines(rest[|line|..])
  {
    var n := 0;
    while n < |rest| && rest[n] != '\n'
      invariant n <= |rest| && '\n' !in rest[..n]
    {
      assert rest[..n + 1] == rest[..n] + [rest[n]];
      n := n + 1;
    }
    hide Lines, IndexOf;
    if n < |rest| {
      line := rest[..n + 1];
      LinesCut(rest[..n], rest[n + 1..]);
      assert rest == rest[..n] + ['\n'] + rest[n + 1..] && line == rest[..n] + ['\n'];
    } else {
      line := rest;
      assert rest[..n] == rest && rest[|line|..] == "";
      LastLine(rest);
    }
  }

  method NewBuffer(line: string) returns (a: array<char>)
    requires NUL !in line
    ensures fresh(a) && IsText(a, 0, line)
  {
    a := new char[|line| + 1](i requires 0 <= i <= |line| => if i < |line| then line[i] else NUL);
  }

  lemma NoLines()
    ensures Lines("") == []
  {}

  lemma LastLine(s: string)
    requires s != "" && '\n' !in s
    ensures Lines(s) == [s] && Lines("") == []
  {}

  lemma CommentLine(table: map<string, Sym>, st: SavedValues, line: string)
    requires |line| > 1 && line[0] == '#'
    ensures ReadLine(table, st, line)
         == match ParseComment(line[2..]) case Unset(name) => StoreNo(table, st, name) case _ => st
  {
    hide ParseValue, Find;
  }

  lemma SettingLine(table: map<string, Sym>, st: SavedValues, line: string)
    requires StartsWith(line, CONFIG)
    ensures var q := line[|CONFIG|..]; var i := IndexOf(q, '=');
      ReadLine(table, st, line)
      == if i.None? then st else StoreText(table, st, q[..i.value], Chomp(q[i.value + 1..]))
  {}

  // strchr, and a NUL in place of the character found.
  method Cut(a: array<char>, p: nat, ch: char, ghost s: string) returns (i: Option<nat>)
    requires IsText(a, p, s) && ch != NUL
    modifies a
    ensures i == IndexOf(s, ch)
    ensures i.Some? ==> IsText(a, p, s[..i.value]) && IsText(a, p + i.value + 1, s[i.value + 1..])
    ensures i.Some? ==> a[p + i.value] == NUL
  {
    hide IndexOf;
    i := StrChr(a, p, ch, s);
    if i.Some? {
      SplitText(a, p, s, i.value);
      ghost var rest := a[p + i.value + 1..];
      a[p + i.value] := NUL;
      assert a[p + i.value + 1..] == rest;
      assert a[p + i.value + 1..p + |s|] == rest[..|s| - i.value - 1];
    }
  }

  // memcmp(&a[p], x, |x|) == 0
  method HasPrefix(a: array<char>, p: nat, x: string, ghost s: string) returns (r: bool)
    requires IsText(a, p, s) && NUL !in x
    ensures r == StartsWith(s, x)
  {
    var k := 0;
    while k < |x|
      invariant k <= |x| && k <= |s| && s[..k] == x[..k]
    {
      assert k < |s| ==> a[p + k] == a[p..p + |s|][k] == s[k];
      if a[p + k] != x[k] {
        assert |x| <= |s| ==> s[..|x|][k] != x[k];
        return false;
      }
      assert x[k] in x;
      assert s[..k + 1] == s[..k] + [s[k]] && x[..k + 1] == x[..k] + [x[k]];
      k := k + 1;
    }
    return true;
  }

  // Cutting a text in two.
  lemma SplitText(a: array<char>, p: nat, s: string, i: nat)
    requires IsText(a, p, s) && i < |s|
    ensures a[p..p + i] == s[..i] && NUL !in s[..i]
    ensures IsText(a, p + i + 1, s[i + 1..])
  {
    TextFrom(a, p, s, i + 1);
    assert a[p..p + i] == a[p..p + |s|][..i];
  }

  // The end of the line, and a carriage return before it, are cut off.
  // The text s0 before it stays.
  method ChompInPlace(a: array<char>, p: nat, ghost s: string, ghost p0: nat, ghost s0: string)
    requires p > 0 && IsText(a, p, s) && a[p - 1] == NUL && IsText(a, p0, s0) && p0 + |s0| < p
    modifies a
    ensures IsText(a, p, Chomp(s)) && IsText(a, p0, s0)
  {
    hide IndexOf, Chomp, IsText;
    var i := StrChr(a, p, '\n', s);
    WholeLine(s);
    if i.Some? {
      CutLine(a, p, s, i.value);
      var p2 := p + i.value;
      Terminate(a, p2, p, s[..i.value], p0, s0);
      p2 := p2 - 1;
      LastOfText(a, p, s[..i.value]);
      if a[p2] == '\r' {
        assert s[..i.value][..i.value - 1] == s[..i.value - 1];
        Terminate(a, p2, p, s[..i.value - 1], p0, s0);
      }
    }
  }

  // A NUL at k, after the text x at p; the text s0 before it stays.
  method Terminate(a: array<char>, k: nat, p: nat, ghost x: string, ghost p0: nat, ghost s0: string)
    requires 0 < p <= k < a.Length && k == p + |x| && a[p..k] == x && NUL !in x
    requires a[p - 1] == NUL && IsText(a, p0, s0) && p0 + |s0| < p
    modifies a
    ensures IsText(a, p, x) && IsText(a, p0, s0) && a[p - 1] == NUL
  {
    ghost var before := a[..k];
    assert before[p0..p0 + |s0|] == a[p0..p0 + |s0|] && before[p..] == a[p..k];
    a[k] := NUL;
    assert a[..k] == before;
    assert a[p0..p0 + |s0|] == before[p0..p0 + |s0|] && a[p..k] == before[p..];
    assert a[p0 + |s0|] == before[p0 + |s0|] && a[p - 1] == before[p - 1];
  }

  lemma LastOfText(a: array<char>, p: nat, x: string)
    requires IsText(a, p, x)
    ensures p + |x| < a.Length
    ensures x != "" ==> var n := |x| - 1; a[p + n] == x[n] && a[p..p + n] == x[..n] && NUL !in x[..n]
  {
    if x != "" {
      var n := |x| - 1;
      assert a[p + n] == a[p..p + |x|][n] && a[p..p + n] == a[p..p + |x|][..n];
      assert forall ch :: ch in x[..n] ==> ch in x;
    }
  }

  lemma WholeLine(s: string)
    ensures IndexOf(s, '\n').None? ==> Chomp(s) == s
  {}

  lemma CutLine(a: array<char>, p: nat, s: string, i: nat)
    requires IsText(a, p, s) && IndexOf(s, '\n') == Some(i)
    ensures i < |s| && p + i < a.Length && a[p..p + i] == s[..i] && NUL !in s[..i]
    ensures Chomp(s) == if i > 0 && s[i - 1] == '\r' then s[..i - 1] else s[..i]
  {
    SplitText(a, p, s, i);
  }
}
