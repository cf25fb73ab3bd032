/** Writing a configuration file and reading it back, as the program does. */
module ConfTrip {
  import opened Options
  import opened Exprs
  import opened MenuLinks
  import opened ConfText
  import opened ConfLines
  import opened ConfWalk
  import opened ConfWrite
  import opened ConfRead
  import opened ConfFile

  // Strings in memory have no NUL.
  ghost predicate AreStrings(m: Menus) {
    && (forall x :: NUL !in m.Prompt(x))
    && (forall s :: s in m.writes ==> NUL !in s.Name() && NUL !in m.Value(s))
  }

  // Lines with their ends, and no NUL.
  predicate IsWhole(text: string) {
    NUL !in text && (text != "" ==> text[|text| - 1] == '\n')
  }

  lemma WholeConcat(a: string, b: string)
    requires IsWhole(a) && IsWhole(b)
    ensures IsWhole(a + b)
  {}

  lemma {:induction false} EscapeIsClean(s: string)
    requires NUL !in s
    ensures NUL !in EscapeBody(s)
  {
    if s != "" {
      assert s == s[..|s| - 1] + [s[|s| - 1]];
      EscapeIsClean(s[..|s| - 1]);
    }
  }

  lemma {:induction false} CommentIsWhole(value: string)
    requires NUL !in value
    ensures IsWhole(CommentText(value))
    decreases |value|
  {
    match IndexOf(value, '\n')
    case None =>
    case Some(i) =>
      assert forall ch :: ch in value[..i] ==> ch in value;
      assert forall ch :: ch in value[i + 1..] ==> ch in value;
      CommentIsWhole(value[i + 1..]);
      WholeConcat(ConfWalk.CommentLine(value[..i]), CommentText(value[i + 1..]));
  }

  // The texts of an item are strings of m.
  ghost predicate IsItemOf(m: Menus, i: Item) {
    match i
    case MenuHead(text) => NUL !in text
    case MenuEnd(text) => NUL !in text
    case Blank => true
    case Line(s) => s in m.writes
  }

  lemma ItemIsWhole(m: Menus, i: Item)
    requires AreStrings(m) && IsItemOf(m, i)
    ensures IsWhole(ItemText(m, i))
  {
    if i.Line? {
      EscapeIsClean(m.Value(i.sym));
    }
  }

  lemma {:induction false} ItemsAreWhole(m: Menus, items: seq<Item>)
    requires AreStrings(m) && forall i :: i in items ==> IsItemOf(m, i)
    ensures IsWhole(Text(m, items))
  {
    if items != [] {
      hide ItemText, IsWhole;
      ItemIsWhole(m, items[0]);
      ItemsAreWhole(m, items[1..]);
      WholeConcat(ItemText(m, items[0]), Text(m, items[1..]));
    } else {
      assert Text(m, items) == "";
    }
  }

  lemma {:induction false} VisitsAreItems(m: Menus, d: Doc, es: seq<Event>)
    requires AreStrings(m) && forall i :: i in d.items ==> IsItemOf(m, i)
    ensures forall i :: i in Visits(m, d, es).items ==> IsItemOf(m, i)
    decreases |es|
  {
    if es != [] {
      VisitsAreItems(m, Visit(m, d, es[0]), es[1..]);
    }
  }

  lemma HeadingIsClean(m: Menus)
    requires AreStrings(m)
    ensures NUL !in Heading(m)
  {
    var first, nl := "Automatically generated file; DO NOT EDIT.", "\n";
    assert NUL !in first && NUL !in m.Prompt(m.root) && NUL !in nl;
    assert NUL !in nl + first + nl + m.Prompt(m.root) + nl;
  }

  lemma FileIsWhole(m: Menus, t: Tree)
    requires AreStrings(m)
    ensures IsWhole(FileText(m, t))
  {
    hide CommentText, Text, IsWhole;
    VisitsAreItems(m, Doc([], {}, false), Below(t));
    ItemsAreWhole(m, Document(m, t).items);
    HeadingIsClean(m);
    CommentIsWhole(Heading(m));
    WholeConcat(CommentText(Heading(m)), Text(m, Document(m, t).items));
  }

  lemma {:induction false} WholeLines(text: string)
    requires IsWhole(text)
    ensures "#" !in Lines(text)
  {
    if text == "" {
      NoLines();
    } else {
      hide Lines, IsWhole;
      var i := FirstEnd(text);
      WholeLines(text[i + 1..]);
      LinesCut(text[..i], text[i + 1..]);
      NotHash(text[..i]);
    }
  }

  // The first line and the rest.
  lemma FirstEnd(text: string) returns (i: nat)
    requires IsWhole(text) && text != ""
    ensures i < |text| && '\n' !in text[..i] && IsWhole(text[i + 1..])
    ensures text == text[..i] + ['\n'] + text[i + 1..]
  {
    assert text[|text| - 1] in text;
    i := IndexOf(text, '\n').value;
    hide IndexOf;
    assert text == text[..i] + ['\n'] + text[i + 1..];
    assert forall ch :: ch in text[i + 1..] ==> ch in text;
  }

  lemma NotHash(line: string)
    ensures line + ['\n'] != "#"
  {
    assert (line + ['\n'])[|line|] == '\n';
  }

  /** conf_write, then conf_read_simple on the file written: what is read are the
      values of the symbols that are written, and nothing else. */
  method WriteAndRead(m: Menus, links: Links, table: map<string, Sym>, ghost t: Tree) returns (saved: SavedValues)
    requires Chain(links, [t], None, None) && t.id == m.root
    requires AreStrings(m) && IsFaithful(m, table)
    ensures saved == Meaning(m, t)
  {
    hide Chain, FileText, AreStrings, IsFaithful, Meaning, Lines, ReadText;
    var writer := new Writer(m, links);
    writer.Write(t);
    FileIsWhole(m, t);
    WholeLines(writer.out);
    var reader := new Reader(table);
    reader.ReadFile(writer.out);
    RoundTrip(m, table, t);
    saved := reader.saved;
  }
}
