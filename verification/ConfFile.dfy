/** A written configuration file: each setting is in it once, and reading it
    restores the configuration. */
module ConfFile {
  import opened Options
  import opened Sequences
  import opened Exprs
  import opened MenuLinks
  import opened ConfText
  import opened ConfLines
  import opened ConfWalk

  // ---------- each setting once, in preorder ----------

  // The symbols at the nodes xs that are written, at their first occurrence.
  function Firsts(m: Menus, xs: seq<Id>, seen: set<Sym>): seq<Sym> {
    if xs == [] then []
    else if xs[0] in m.sym && m.IsWritten(m.sym[xs[0]]) && m.sym[xs[0]] !in seen
    then [m.sym[xs[0]]] + Firsts(m, xs[1..], seen + {m.sym[xs[0]]})
    else Firsts(m, xs[1..], seen)
  }

  ghost predicate Occurs(m: Menus, xs: seq<Id>, s: Sym) {
    exists x :: x in xs && x in m.sym && m.sym[x] == s
  }

  /** They are all that there are... */
  lemma {:induction false} FirstsAreAll(m: Menus, xs: seq<Id>, seen: set<Sym>, s: Sym)
    ensures s in Firsts(m, xs, seen) <==> s !in seen && m.IsWritten(s) && Occurs(m, xs, s)
  {
    if xs != [] {
      var x, rest := xs[0], xs[1..];
      assert xs == [x] + rest;
      assert Occurs(m, xs, s) <==> (x in m.sym && m.sym[x] == s) || Occurs(m, rest, s);
      if x in m.sym && m.IsWritten(m.sym[x]) && m.sym[x] !in seen {
        FirstsAreAll(m, rest, seen + {m.sym[x]}, s);
      } else {
        FirstsAreAll(m, rest, seen, s);
      }
    }
  }

  /** ...and all different. */
  lemma {:induction false} FirstsDiffer(m: Menus, xs: seq<Id>, seen: set<Sym>, i: nat, j: nat)
    requires i < j < |Firsts(m, xs, seen)|
    ensures Firsts(m, xs, seen)[i] != Firsts(m, xs, seen)[j]
  {
    var x, rest := xs[0], xs[1..];
    if x in m.sym && m.IsWritten(m.sym[x]) && m.sym[x] !in seen {
      var s := m.sym[x];
      var ss := Firsts(m, rest, seen + {s});
      if i > 0 {
        FirstsDiffer(m, rest, seen + {s}, i - 1, j - 1);
      } else {
        FirstsAreAll(m, rest, seen + {s}, s);
        assert ss[j - 1] in ss;
      }
    } else {
      FirstsDiffer(m, rest, seen, i, j);
    }
  }

  function Settings(items: seq<Item>): seq<Sym> {
    if items == [] then []
    else (if items[0].Line? then [items[0].sym] else []) + Settings(items[1..])
  }

  lemma {:induction false} SettingsConcat(a: seq<Item>, b: seq<Item>)
    ensures Settings(a + b) == Settings(a) + Settings(b)
  {
    if a == [] {
      assert a + b == b;
    } else {
      assert (a + b)[1..] == a[1..] + b && (a + b)[0] == a[0];
      SettingsConcat(a[1..], b);
    }
  }

  // The nodes entered.
  function Entered(es: seq<Event>): seq<Id> {
    if es == [] then [] else (if es[0].Enter? then [es[0].id] else []) + Entered(es[1..])
  }

  lemma {:induction false} EnteredConcat(a: seq<Event>, b: seq<Event>)
    ensures Entered(a + b) == Entered(a) + Entered(b)
  {
    if a == [] {
      assert a + b == b;
    } else {
      assert (a + b)[1..] == a[1..] + b && (a + b)[0] == a[0];
      EnteredConcat(a[1..], b);
    }
  }

  /** The walk enters the nodes in preorder. */
  lemma {:induction false} EnteredInPreorder(ts: seq<Tree>)
    ensures Entered(Events(ts)) == Ids(ts)
  {
    if ts != [] {
      var t := ts[0];
      EnteredInPreorder(t.kids);
      EnteredInPreorder(ts[1..]);
      EnteredConcat([Enter(t.id)] + Below(t), Events(ts[1..]));
      EnteredConcat([Enter(t.id)], Below(t));
      EnteredConcat(Events(t.kids), [Leave(t.id)]);
      assert Entered([Enter(t.id)]) == [t.id] && Entered([Leave(t.id)]) == [];
    }
  }

  // The symbol written at a visit, if any.
  predicate Writes(m: Menus, d: Doc, e: Event) {
    e.Enter? && e.id in m.sym && m.IsWritten(m.sym[e.id]) && m.sym[e.id] !in d.written
  }

  lemma SettingsOfVisit(m: Menus, d: Doc, e: Event)
    ensures var d' := Visit(m, d, e);
      if Writes(m, d, e) then
        Settings(d'.items) == Settings(d.items) + [m.sym[e.id]] && d'.written == d.written + {m.sym[e.id]}
      else Settings(d'.items) == Settings(d.items) && d'.written == d.written
  {
    var d' := Visit(m, d, e);
    if d'.items != d.items {
      var more := d'.items[|d.items|..];
      assert d'.items == d.items + more;
      SettingsConcat(d.items, more);
      SettingsOfOne(more[0]);
      if |more| == 1 {
        assert more == [more[0]];
      } else {
        assert more == [Blank] + [more[1]];
        SettingsConcat([Blank], [more[1]]);
        SettingsOfOne(more[1]);
      }
    }
  }

  lemma SettingsOfOne(i: Item)
    ensures Settings([i]) == if i.Line? then [i.sym] else []
  {
    assert [i][1..] == [];
  }

  lemma {:induction false} SettingsOfVisits(m: Menus, d: Doc, es: seq<Event>)
    ensures Settings(Visits(m, d, es).items) == Settings(d.items) + Firsts(m, Entered(es), d.written)
    decreases |es|
  {
    if es != [] {
      hide Visit, Settings;
      var d', xs := Visit(m, d, es[0]), Entered(es[1..]);
      SettingsOfVisits(m, d', es[1..]);
      SettingsOfVisit(m, d, es[0]);
      if es[0].Enter? {
        FirstsStep(m, es[0].id, xs, d.written);
      } else {
        assert Entered(es) == xs;
      }
      if Writes(m, d, es[0]) {
        Regroup(Settings(d.items), [m.sym[es[0].id]], Firsts(m, xs, d'.written));
      }
    }
  }

  lemma FirstsStep(m: Menus, x: Id, xs: seq<Id>, seen: set<Sym>)
    ensures Firsts(m, [x] + xs, seen)
         == if x in m.sym && m.IsWritten(m.sym[x]) && m.sym[x] !in seen
            then [m.sym[x]] + Firsts(m, xs, seen + {m.sym[x]}) else Firsts(m, xs, seen)
  {
    assert ([x] + xs)[1..] == xs;
  }

  /** The settings in the file are those of the symbols to be written, each once,
      in the preorder of the menu tree. */
  lemma SettingsInPreorder(m: Menus, t: Tree)
    ensures Settings(Document(m, t).items) == Firsts(m, Ids(t.kids), {})
  {
    SettingsOfVisits(m, Doc([], {}, false), Below(t));
    EnteredInPreorder(t.kids);
    EnteredConcat(Events(t.kids), [Leave(t.id)]);
    assert Entered([Leave(t.id)]) == [] && Entered([]) == [] && Ids([]) == [];
    assert Ids(t.kids) + [] == Ids(t.kids) && Entered(Below(t)) == Ids(t.kids);
    assert Settings([]) == [] && [] + Firsts(m, Ids(t.kids), {}) == Firsts(m, Ids(t.kids), {});
  }

  // ---------- reading the file ----------

  // A comment that says that a known bool or tristate is not set.
  predicate SaysUnset(table: map<string, Sym>, text: string) {
    var e := ParseComment(text + "\n");
    e.Unset? && Find(table, e.name).Some? && Find(table, e.name).value.IsLogical()
  }

  predicate IsHarmless(table: map<string, Sym>, text: string) {
    '\n' !in text && !SaysUnset(table, text)
  }

  /** A line is read, then the rest of the file. */
  lemma ReadFirst(table: map<string, Sym>, st: SavedValues, line: string, rest: string)
    requires '\n' !in line
    ensures ReadText(table, st, line + "\n" + rest) == ReadText(table, ReadLine(table, st, line + "\n"), rest)
  {
    LinesCut(line, rest);
    hide Lines, ReadLine;
    assert ([line + "\n"] + Lines(rest))[1..] == Lines(rest);
  }

  lemma CommentIsRead(table: map<string, Sym>, st: SavedValues, text: string)
    ensures ReadLine(table, st, "# " + text + "\n")
         == if SaysUnset(table, text) then StoreNo(table, st, ParseComment(text + "\n").name) else st
  {
    var line := "# " + text + "\n";
    assert line[2..] == text + "\n" && line[0] == '#';
    assert ParseLine(line) == ParseComment(text + "\n");
    hide ParseLine, Find;
  }

  lemma CommentIsSkipped(table: map<string, Sym>, st: SavedValues, text: string)
    requires IsHarmless(table, text)
    ensures ReadLine(table, st, "# " + text + "\n") == st
  {
    hide SaysUnset, ReadLine;
    CommentIsRead(table, st, text);
  }

  /** The menu texts and values for which a file reads back as it was meant. */
  ghost predicate IsFaithful(m: Menus, table: map<string, Sym>) {
    && (forall x :: x in m.visible ==> IsHarmless(table, m.Prompt(x)))
    && IsHarmlessHeading(table, Heading(m))
    && (forall s :: s in m.writes && !s.Type().Unknown? ==>
          IsKnown(table, s) && IsValueOf(s, m.Value(s)) && IsWritable(s, m.Value(s)))
  }

  predicate IsHarmlessHeading(table: map<string, Sym>, value: string) {
    match IndexOf(value, '\n')
    case None => IsHarmless(table, value)
    case Some(i) => IsHarmless(table, value[..i]) && IsHarmlessHeading(table, value[i + 1..])
  }

  lemma {:induction false} HeadingIsSkipped(table: map<string, Sym>, st: SavedValues, value: string, rest: string)
    requires IsHarmlessHeading(table, value)
    ensures ReadText(table, st, CommentText(value) + rest) == ReadText(table, st, rest)
    decreases |value|
  {
    match IndexOf(value, '\n')
    case None => OneComment(table, st, value, rest);
    case Some(i) =>
      var more := value[i + 1..];
      Regroup(CommentLine(value[..i]), CommentText(more), rest);
      OneComment(table, st, value[..i], CommentText(more) + rest);
      HeadingIsSkipped(table, st, more, rest);
  }

  lemma OneComment(table: map<string, Sym>, st: SavedValues, text: string, rest: string)
    requires IsHarmless(table, text)
    ensures ReadText(table, st, CommentLine(text) + rest) == ReadText(table, st, rest)
  {
    hide ReadText, ReadLine;
    if text == "" {
      ReadFirst(table, st, "#", rest);
      HashIsSkipped(table, st);
      assert "#" + "\n" == "#\n";
    } else {
      ReadFirst(table, st, "# " + text, rest);
      CommentIsSkipped(table, st, text);
    }
  }

  lemma HashIsSkipped(table: map<string, Sym>, st: SavedValues)
    ensures ReadLine(table, st, "#\n") == st && ReadLine(table, st, "\n") == st
  {}

  // What reading an item does.
  function ItemEffect(m: Menus, st: SavedValues, i: Item): SavedValues {
    if i.Line? && !i.sym.Type().Unknown? then st[i.sym := Meant(i.sym, m.Value(i.sym))] else st
  }

  function Effect(m: Menus, st: SavedValues, items: seq<Item>): SavedValues
    decreases |items|
  {
    if items == [] then st else Effect(m, ItemEffect(m, st, items[0]), items[1..])
  }

  lemma ItemIsRead(m: Menus, table: map<string, Sym>, st: SavedValues, i: Item, rest: string)
    requires i.MenuHead? || i.MenuEnd? ==> IsHarmless(table, i.text)
    requires i.Line? && !i.sym.Type().Unknown? ==>
      IsKnown(table, i.sym) && IsValueOf(i.sym, m.Value(i.sym)) && IsWritable(i.sym, m.Value(i.sym))
    ensures ReadText(table, st, ItemText(m, i) + rest) == ReadText(table, ItemEffect(m, st, i), rest)
  {
    match i
    case MenuHead(text) => HeadIsSkipped(table, st, text, rest);
    case MenuEnd(text) => EndIsSkipped(table, st, text, rest);
    case Blank =>
      ReadFirst(table, st, "", rest);
      HashIsSkipped(table, st);
      assert "" + "\n" == "\n";
    case Line(s) =>
      if s.Type().Unknown? {
        assert "" + rest == rest;
      } else {
        SettingIsRead(table, st, s, m.Value(s), rest);
      }
  }

  lemma HeadIsSkipped(table: map<string, Sym>, st: SavedValues, text: string, rest: string)
    requires IsHarmless(table, text)
    ensures ReadText(table, st, ("\n#\n# " + text + "\n#\n") + rest) == ReadText(table, st, rest)
  {
    hide ReadText, ReadLine;
    var r3 := "#\n" + rest;
    var r2 := "# " + text + "\n" + r3;
    var r1 := "#\n" + r2;
    HashIsSkipped(table, st);
    ReadFirst(table, st, "", r1);
    ReadFirst(table, st, "#", r2);
    ReadFirst(table, st, "# " + text, r3);
    CommentIsSkipped(table, st, text);
    ReadFirst(table, st, "#", rest);
    HeadLines(text, rest);
    assert "" + "\n" == "\n" && "#" + "\n" == "#\n";
  }

  lemma HeadLines(text: string, rest: string)
    ensures ("\n#\n# " + text + "\n#\n") + rest == "\n" + ("#\n" + ("# " + text + "\n" + ("#\n" + rest)))
  {}

  lemma EndIsSkipped(table: map<string, Sym>, st: SavedValues, text: string, rest: string)
    requires IsHarmless(table, text)
    ensures ReadText(table, st, ("# end of " + text + "\n") + rest) == ReadText(table, st, rest)
  {
    hide ReadText;
    ReadFirst(table, st, "# end of " + text, rest);
    var line := "# end of " + text + "\n";
    assert line[2] == 'e' && line[2..][0] == 'e';
  }

  lemma SettingIsRead(table: map<string, Sym>, st: SavedValues, s: Sym, value: string, rest: string)
    requires IsKnown(table, s) && !s.Type().Unknown? && IsValueOf(s, value) && IsWritable(s, value)
    ensures ReadText(table, st, PrintSymbol(s, value) + rest) == ReadText(table, st[s := Meant(s, value)], rest)
  {
    hide ReadText, ReadLine, ParseLine;
    LineRoundTrip(table, st, s, value);
    var line := PrintedLine(s, value);
    ReadFirst(table, st, line, rest);
  }

  // A printed setting is one line.
  lemma PrintedLine(s: Sym, value: string) returns (line: string)
    requires s.Named? && '\n' !in s.name && !s.Type().Unknown? && IsValueOf(s, value) && IsWritable(s, value)
    ensures PrintSymbol(s, value) == line + "\n" && '\n' !in line
  {
    if s.IsLogical() && value == "n" {
      line := "# CONFIG_" + s.name + " is not set";
      assert PrintSymbol(s, value) == line + "\n";
    } else {
      var text := Printed(s, value);
      assert '\n' !in text by {
        if s.Type().StringType? { BodyNewlines(value); }
        else if !s.IsLogical() { ValidIsOneLine(s.Type(), value); }
      }
      line := "CONFIG_" + s.name + "=" + text;
    }
  }

  lemma {:induction false} ItemsAreRead(m: Menus, table: map<string, Sym>, st: SavedValues, items: seq<Item>)
    requires forall i :: i in items ==> IsReadable(m, table, i)
    ensures ReadText(table, st, Text(m, items)) == Effect(m, st, items)
    decreases |items|
  {
    if items != [] {
      hide ReadText, ItemText, ItemEffect, IsReadable;
      assert IsReadable(m, table, items[0]);
      ReadableItem(m, table, st, items[0], Text(m, items[1..]));
      ItemsAreRead(m, table, ItemEffect(m, st, items[0]), items[1..]);
    }
  }

  predicate IsReadable(m: Menus, table: map<string, Sym>, i: Item) {
    && (i.MenuHead? || i.MenuEnd? ==> IsHarmless(table, i.text))
    && (i.Line? && !i.sym.Type().Unknown? ==>
          IsKnown(table, i.sym) && IsValueOf(i.sym, m.Value(i.sym)) && IsWritable(i.sym, m.Value(i.sym)))
  }

  lemma ReadableItem(m: Menus, table: map<string, Sym>, st: SavedValues, i: Item, rest: string)
    requires IsReadable(m, table, i)
    ensures ReadText(table, st, ItemText(m, i) + rest) == ReadText(table, ItemEffect(m, st, i), rest)
  {
    ItemIsRead(m, table, st, i, rest);
  }

  /** All items of a document are readable. */
  lemma {:induction false} DocumentIsReadable(m: Menus, table: map<string, Sym>, d: Doc, es: seq<Event>)
    requires IsFaithful(m, table) && forall i :: i in d.items ==> IsReadable(m, table, i)
    ensures forall i :: i in Visits(m, d, es).items ==> IsReadable(m, table, i)
    decreases |es|
  {
    if es != [] {
      var d' := Visit(m, d, es[0]);
      forall i | i in d'.items ensures IsReadable(m, table, i) {
        NewItem(m, table, d, es[0], i);
      }
      DocumentIsReadable(m, table, d', es[1..]);
    }
  }

  lemma NewItem(m: Menus, table: map<string, Sym>, d: Doc, e: Event, i: Item)
    requires IsFaithful(m, table) && i in Visit(m, d, e).items
    ensures i in d.items || IsReadable(m, table, i)
  {
    hide IsHarmless, IsKnown, IsValueOf, IsWritable, IsHarmlessHeading;
    if e.Enter? && e.id in m.sym {
      assert i in d.items || i == Blank || (i == Line(m.sym[e.id]) && m.sym[e.id] in m.writes);
    }
  }

  // What is saved for the symbols ss; symbols without type have no line.
  function SavedFor(m: Menus, ss: seq<Sym>): SavedValues {
    map s | s in ss && !s.Type().Unknown? :: Meant(s, m.Value(s))
  }

  lemma {:induction false} EffectOfItems(m: Menus, st: SavedValues, items: seq<Item>)
    ensures Effect(m, st, items) == st + SavedFor(m, Settings(items))
    decreases |items|
  {
    if items != [] {
      var i, ss := items[0], Settings(items[1..]);
      EffectOfItems(m, ItemEffect(m, st, i), items[1..]);
      if i.Line? {
        OneMoreSaved(m, st, i.sym, ss);
      } else {
        assert [] + ss == ss;
      }
    }
  }

  lemma OneMoreSaved(m: Menus, st: SavedValues, s: Sym, ss: seq<Sym>)
    ensures (if s.Type().Unknown? then st else st[s := Meant(s, m.Value(s))]) + SavedFor(m, ss)
         == st + SavedFor(m, [s] + ss)
  {
    hide Meant;
    assert forall x :: x in [s] + ss <==> x == s || x in ss;
  }

  /** The symbols at the nodes below t that are written, and their values. */
  function Meaning(m: Menus, t: Tree): SavedValues {
    SavedFor(m, Firsts(m, Ids(t.kids), {}))
  }

  /** Writing a configuration and reading the file back restores every bool,
      tristate, valid int or hex, and single-line string that was written, and
      nothing else. */
  lemma RoundTrip(m: Menus, table: map<string, Sym>, t: Tree)
    requires IsFaithful(m, table)
    ensures ReadText(table, map[], FileText(m, t)) == Meaning(m, t)
  {
    hide ReadText, CommentText;
    var items := Document(m, t).items;
    HeadingIsSkipped(table, map[], Heading(m), Text(m, items));
    DocumentIsReadable(m, table, Doc([], {}, false), Below(t));
    ItemsAreRead(m, table, map[], items);
    EffectOfItems(m, map[], items);
    SettingsInPreorder(m, t);
  }

  // ---------- menu texts that read as settings ----------

  /** A comment leaves every configuration alone exactly if it does not say that
      a known bool or tristate is not set. */
  lemma CommentsThatCount(table: map<string, Sym>, text: string)
    ensures (forall st :: ReadLine(table, st, "# " + text + "\n") == st) <==> !SaysUnset(table, text)
  {
    hide ParseComment, Find;
    if SaysUnset(table, text) {
      var s := Find(table, ParseComment(text + "\n").name).value;
      var st: SavedValues := map[s := SavedTri(YES)];
      CommentIsRead(table, st, text);
      assert ReadLine(table, st, "# " + text + "\n")[s] == SavedTri(NO);
    } else {
      forall st ensures ReadLine(table, st, "# " + text + "\n") == st {
        CommentIsRead(table, st, text);
      }
    }
  }

  /** Such a menu text changes the configuration that is read back. */
  lemma MenuTextReadAsSetting(m: Menus, table: map<string, Sym>, st: SavedValues, s: Sym)
    requires IsKnown(table, s) && s.IsLogical()
    ensures ReadText(table, st, ItemText(m, MenuHead("CONFIG_" + s.name + " is not set"))) == st[s := SavedTri(NO)]
  {
    var text := "CONFIG_" + s.name + " is not set";
    hide ReadText, ReadLine;
    var r2 := "# " + text + "\n" + ("#\n" + "");
    HashIsSkipped(table, st);
    HashIsSkipped(table, st[s := SavedTri(NO)]);
    ReadFirst(table, st, "", "#\n" + r2);
    ReadFirst(table, st, "#", r2);
    ReadFirst(table, st, "# " + text, "#\n" + "");
    UnsetIsRead(table, st, s);
    ReadFirst(table, st[s := SavedTri(NO)], "#", "");
    HeadLines(text, "");
    assert "" + "\n" == "\n" && "#" + "\n" == "#\n";
    assert ItemText(m, MenuHead(text)) + "" == ItemText(m, MenuHead(text));
    NothingIsRead(table, st[s := SavedTri(NO)]);
  }

  lemma NothingIsRead(table: map<string, Sym>, st: SavedValues)
    ensures ReadText(table, st, "") == st
  {}

  lemma UnsetIsRead(table: map<string, Sym>, st: SavedValues, s: Sym)
    requires IsKnown(table, s) && s.IsLogical()
    ensures var text := "CONFIG_" + s.name + " is not set";
      '\n' !in text && ReadLine(table, st, "# " + text + "\n") == st[s := SavedTri(NO)]
  {
    UnsetText(s.name);
    ParseUnset(s.name);
    hide ParseLine;
  }

  lemma UnsetText(name: string)
    requires '\n' !in name
    ensures var text := "CONFIG_" + name + " is not set";
      '\n' !in text && "# " + text + "\n" == "# CONFIG_" + name + " is not set\n"
  {}
}
