/** A small menu tree and its configuration file, character by character. */
module ConfExample {
  import opened Options
  import opened Sequences
  import opened Exprs
  import opened MenuLinks
  import opened ConfText
  import opened ConfLines
  import opened ConfWalk

  const A: Sym := Named("A", Boolean, false)
  const B: Sym := Named("B", StringType, false)
  const C: Sym := Named("C", Tristate, false)
  const D: Sym := Named("D", IntType, false)
  const E: Sym := Named("E", Boolean, false)
  const F: Sym := Named("F", Boolean, false)
  const G: Sym := Named("G", Tristate, false)

  /** Two menus, an invisible one, a second entry of A, a choice E and a symbol F
      that is not to be written. */
  const TREE: Tree := Node(0, [Node(1, [Node(2, []), Node(3, [])]), Node(4, [Node(5, [])]), Node(6, [Node(7, [])]),
                               Node(8, []), Node(9, []), Node(10, []), Node(11, [])])

  const MENUS: Menus := Menus(
    0,
    map[2 := A, 3 := B, 5 := C, 7 := D, 8 := A, 9 := E, 10 := F, 11 := G],
    {0, 1, 4},
    map[0 := "Test", 1 := "First", 4 := "Second", 6 := "Third"],
    {E},
    {A, B, C, D, E, G},
    map[A := "y", B := "a\"b\\c", C := "n", D := "-5", E := "y", F := "y", G := "m"])

  lemma {:induction false} FirstVisit(t: Tree, ts: seq<Tree>)
    ensures Events([t] + ts) == [Enter(t.id)] + Below(t) + Events(ts)
    ensures Events([]) == []
  {
    assert ([t] + ts)[1..] == ts;
  }

  lemma LeafVisit(x: Id, ts: seq<Tree>)
    ensures Events([Node(x, [])] + ts) == [Enter(x)] + Events(ts)
  {
    FirstVisit(Node(x, []), ts);
    assert Below(Node(x, [])) == [];
  }

  lemma MenuVisit(x: Id, kids: seq<Tree>, ts: seq<Tree>)
    requires kids != []
    ensures Events([Node(x, kids)] + ts) == [Enter(x)] + (Events(kids) + ([Leave(x)] + Events(ts)))
  {
    FirstVisit(Node(x, kids), ts);
    assert Below(Node(x, kids)) == Events(kids) + [Leave(x)];
    hide Events, Below;
    Regroup([Enter(x)], Events(kids) + [Leave(x)], Events(ts));
    Regroup(Events(kids), [Leave(x)], Events(ts));
  }

  lemma LastVisit(x: Id)
    ensures Events([Node(x, [])]) == [Enter(x)]
  {
    LeafVisit(x, []);
    FirstVisit(Node(x, []), []);
    assert [Node(x, [])] + [] == [Node(x, [])];
  }

  // The visits from the entries after the menus on, from the third menu on, and
  // from the second one on.
  const AT_END: seq<Event> := [Enter(8)] + ([Enter(9)] + ([Enter(10)] + ([Enter(11)] + ([Leave(0)] + []))))
  const AT_THIRD: seq<Event> := [Enter(6)] + ([Enter(7)] + ([Leave(6)] + AT_END))
  const AT_SECOND: seq<Event> := [Enter(4)] + ([Enter(5)] + ([Leave(4)] + AT_THIRD))

  lemma EndVisits(ts: seq<Tree>)
    requires ts == [Node(8, [])] + ([Node(9, [])] + ([Node(10, [])] + [Node(11, [])]))
    ensures Events(ts) + [Leave(0)] == AT_END
  {
    hide Events;
    LeafVisit(8, [Node(9, [])] + ([Node(10, [])] + [Node(11, [])]));
    LeafVisit(9, [Node(10, [])] + [Node(11, [])]);
    LeafVisit(10, [Node(11, [])]);
    LastVisit(11);
  }

  lemma MenuVisits(x: Id, y: Id, ts: seq<Tree>, after: seq<Event>)
    requires Events(ts) + [Leave(0)] == after
    ensures Events([Node(x, [Node(y, [])])] + ts) + [Leave(0)] == [Enter(x)] + ([Enter(y)] + ([Leave(x)] + after))
  {
    hide Events;
    MenuVisit(x, [Node(y, [])], ts);
    LastVisit(y);
    Regroup4([Enter(x)], [Enter(y)], [Leave(x)] + Events(ts), [Leave(0)]);
    Regroup([Leave(x)], Events(ts), [Leave(0)]);
    Regroup([Enter(x)], [Enter(y)], [Leave(x)] + Events(ts));
  }

  lemma FirstMenuVisits(ts: seq<Tree>, after: seq<Event>)
    requires Events(ts) + [Leave(0)] == after
    ensures Events([Node(1, [Node(2, []), Node(3, [])])] + ts) + [Leave(0)]
         == [Enter(1)] + ([Enter(2)] + ([Enter(3)] + ([Leave(1)] + after)))
  {
    hide Events;
    var kids := [Node(2, []), Node(3, [])];
    MenuVisit(1, kids, ts);
    assert kids == [Node(2, [])] + [Node(3, [])];
    LeafVisit(2, [Node(3, [])]);
    LastVisit(3);
  }

  lemma TreeVisits()
    ensures Below(TREE) == [Enter(1)] + ([Enter(2)] + ([Enter(3)] + ([Leave(1)] + AT_SECOND)))
  {
    assert Below(TREE) == Events(TREE.kids) + [Leave(0)];
    hide Events;
    var t3 := [Node(8, [])] + ([Node(9, [])] + ([Node(10, [])] + [Node(11, [])]));
    var t2 := [Node(6, [Node(7, [])])] + t3;
    var t1 := [Node(4, [Node(5, [])])] + t2;
    assert TREE.kids == [Node(1, [Node(2, []), Node(3, [])])] + t1;
    EndVisits(t3);
    MenuVisits(6, 7, t3, AT_END);
    MenuVisits(4, 5, t2, AT_THIRD);
    FirstMenuVisits(t1, AT_SECOND);
  }

  lemma OneVisit(d: Doc, e: Event, es: seq<Event>)
    ensures Visits(MENUS, d, [e] + es) == Visits(MENUS, Visit(MENUS, d, e), es)
    ensures Visits(MENUS, d, []) == d
  {
    assert ([e] + es)[1..] == es;
  }

  // The first menu...
  lemma FirstMenu(es: seq<Event>)
    ensures Visits(MENUS, Doc([], {}, false), [Enter(1)] + ([Enter(2)] + ([Enter(3)] + ([Leave(1)] + es))))
         == Visits(MENUS, Doc([MenuHead("First"), Line(A), Line(B), MenuEnd("First")], {A, B}, true), es)
  {
    hide Visits;
    var head := MenuHead("First");
    OneVisit(Doc([], {}, false), Enter(1), [Enter(2)] + ([Enter(3)] + ([Leave(1)] + es)));
    assert [] + [head] == [head] && {} + {A} == {A};
    OneVisit(Doc([head], {}, false), Enter(2), [Enter(3)] + ([Leave(1)] + es));
    assert [head] + ([] + [Line(A)]) == [head, Line(A)];
    OneVisit(Doc([head, Line(A)], {A}, false), Enter(3), [Leave(1)] + es);
    assert [head, Line(A)] + ([] + [Line(B)]) == [head, Line(A), Line(B)];
    assert {A} + {B} == {A, B};
    OneVisit(Doc([head, Line(A), Line(B)], {A, B}, false), Leave(1), es);
    assert [head, Line(A), Line(B)] + [MenuEnd("First")] == [head, Line(A), Line(B), MenuEnd("First")];
  }

  // ...the second one...
  lemma SecondMenu(items: seq<Item>, es: seq<Event>)
    ensures Visits(MENUS, Doc(items, {A, B}, true), [Enter(4)] + ([Enter(5)] + ([Leave(4)] + es)))
         == Visits(MENUS, Doc(items + [MenuHead("Second"), Line(C), MenuEnd("Second")], {A, B, C}, true), es)
  {
    hide Visits;
    var head := MenuHead("Second");
    OneVisit(Doc(items, {A, B}, true), Enter(4), [Enter(5)] + ([Leave(4)] + es));
    OneVisit(Doc(items + [head], {A, B}, false), Enter(5), [Leave(4)] + es);
    assert items + [head] + ([] + [Line(C)]) == items + [head, Line(C)];
    assert {A, B} + {C} == {A, B, C};
    OneVisit(Doc(items + [head, Line(C)], {A, B, C}, false), Leave(4), es);
    assert items + [head, Line(C)] + [MenuEnd("Second")] == items + [head, Line(C), MenuEnd("Second")];
  }

  // ...the third one, which is invisible...
  lemma ThirdMenu(items: seq<Item>, es: seq<Event>)
    ensures Visits(MENUS, Doc(items, {A, B, C}, true), [Enter(6)] + ([Enter(7)] + ([Leave(6)] + es)))
         == Visits(MENUS, Doc(items + [Blank, Line(D)], {A, B, C, D}, false), es)
  {
    hide Visits;
    OneVisit(Doc(items, {A, B, C}, true), Enter(6), [Enter(7)] + ([Leave(6)] + es));
    OneVisit(Doc(items, {A, B, C}, true), Enter(7), [Leave(6)] + es);
    assert [Blank] + [Line(D)] == [Blank, Line(D)];
    assert {A, B, C} + {D} == {A, B, C, D};
    OneVisit(Doc(items + [Blank, Line(D)], {A, B, C, D}, false), Leave(6), es);
  }

  // ...and the rest.
  lemma AfterMenus(items: seq<Item>)
    ensures Visits(MENUS, Doc(items, {A, B, C, D}, false), AT_END).items == items + [Line(G)]
  {
    hide Visits;
    var d := Doc(items, {A, B, C, D}, false);
    OneVisit(d, Enter(8), [Enter(9)] + ([Enter(10)] + ([Enter(11)] + ([Leave(0)] + []))));
    OneVisit(d, Enter(9), [Enter(10)] + ([Enter(11)] + ([Leave(0)] + [])));
    OneVisit(d, Enter(10), [Enter(11)] + ([Leave(0)] + []));
    OneVisit(d, Enter(11), [Leave(0)] + []);
    assert [] + [Line(G)] == [Line(G)];
    var d' := Doc(items + [Line(G)], {A, B, C, D} + {G}, false);
    OneVisit(d', Leave(0), []);
  }

  const ITEMS: seq<Item> :=
    [MenuHead("First"), Line(A), Line(B), MenuEnd("First"), MenuHead("Second"), Line(C), MenuEnd("Second"),
     Blank, Line(D), Line(G)]

  lemma TreeItems()
    ensures Document(MENUS, TREE).items == ITEMS
  {
    hide Visits, Below, Visit;
    TreeVisits();
    var i1 := [MenuHead("First"), Line(A), Line(B), MenuEnd("First")];
    var i2 := i1 + [MenuHead("Second"), Line(C), MenuEnd("Second")];
    var i3 := i2 + [Blank, Line(D)];
    FirstMenu(AT_SECOND);
    SecondMenu(i1, AT_THIRD);
    ThirdMenu(i2, AT_END);
    AfterMenus(i3);
    assert i3 + [Line(G)] == ITEMS;
  }

  // ---------- the text ----------

  // One character more, plain or escaped.
  lemma Plain(x: string, ch: char, y: string)
    requires EscapeBody(x) == y && ch != '"' && ch != '\\'
    ensures EscapeBody(x + [ch]) == y + [ch]
  {
    assert (x + [ch])[..|x|] == x;
  }

  lemma Escaped(x: string, ch: char, y: string)
    requires EscapeBody(x) == y && (ch == '"' || ch == '\\')
    ensures EscapeBody(x + [ch]) == y + ['\\', ch]
  {
    assert (x + [ch])[..|x|] == x;
  }

  lemma FirstEscaped()
    ensures EscapeBody("a\"") == "a\\\""
  {
    assert EscapeBody("") == "";
    hide EscapeBody;
    Plain("", 'a', "");
    assert "" + ['a'] == "a";
    Escaped("a", '"', "a");
    assert "a" + ['"'] == "a\"" && "a" + ['\\', '"'] == "a\\\"";
  }

  lemma EscapedText()
    ensures EscapeBody("a\"b\\c") == "a\\\"b\\\\c"
  {
    hide EscapeBody;
    FirstEscaped();
    Plain("a\"", 'b', "a\\\"");
    assert "a\"" + ['b'] == "a\"b" && "a\\\"" + ['b'] == "a\\\"b";
    Escaped("a\"b", '\\', "a\\\"b");
    assert "a\"b" + ['\\'] == "a\"b\\" && "a\\\"b" + ['\\', '\\'] == "a\\\"b\\\\";
    Plain("a\"b\\", 'c', "a\\\"b\\\\");
    assert "a\"b\\" + ['c'] == "a\"b\\c" && "a\\\"b\\\\" + ['c'] == "a\\\"b\\\\c";
  }

  lemma TextOfA()
    ensures ItemText(MENUS, Line(A)) == "CONFIG_A=y\n"
  {
    assert "y"[0] != "n"[0];
    assert "CONFIG_" + "A" + "=" + "y" + "\n" == "CONFIG_A=y\n";
  }

  lemma TextOfB()
    ensures ItemText(MENUS, Line(B)) == "CONFIG_B=\"a\\\"b\\\\c\"\n"
  {
    hide EscapeBody;
    EscapedText();
    assert "CONFIG_" + "B" + "=" + ("\"" + "a\\\"b\\\\c" + "\"") + "\n" == "CONFIG_B=\"a\\\"b\\\\c\"\n";
  }

  lemma TextOfC()
    ensures ItemText(MENUS, Line(C)) == "# CONFIG_C is not set\n"
  {}

  lemma TextOfD()
    ensures ItemText(MENUS, Line(D)) == "CONFIG_D=-5\n"
  {}

  lemma TextOfG()
    ensures ItemText(MENUS, Line(G)) == "CONFIG_G=m\n"
  {
    assert "m"[0] != "n"[0];
    assert "CONFIG_" + "G" + "=" + "m" + "\n" == "CONFIG_G=m\n";
  }

  lemma MenuTexts()
    ensures ItemText(MENUS, MenuHead("First")) == "\n#\n# First\n#\n"
    ensures ItemText(MENUS, MenuHead("Second")) == "\n#\n# Second\n#\n"
    ensures ItemText(MENUS, MenuEnd("First")) == "# end of First\n"
    ensures ItemText(MENUS, MenuEnd("Second")) == "# end of Second\n"
    ensures ItemText(MENUS, Blank) == "\n"
  {}

  const FIRST: string := "Automatically generated file; DO NOT EDIT."

  lemma HeadingLines()
    ensures Heading(MENUS) == "" + ['\n'] + (FIRST + ['\n'] + ("Test" + ['\n'] + ""))
  {
    HeadingParts("\n", FIRST, "Test");
    HeadingIsShort();
    assert MENUS.Prompt(0) == "Test";
  }

  lemma HeadingParts(nl: string, first: string, prompt: string)
    requires nl == "\n"
    ensures nl + first + nl + prompt + nl == "" + ['\n'] + (first + ['\n'] + (prompt + ['\n'] + ""))
  {}

  lemma HeadingIsShort()
    ensures |FIRST| == 42
  {}

  lemma HeadingText()
    ensures CommentText(Heading(MENUS)) == Concat(["#\n", "# " + FIRST + "\n", "# Test\n", "#\n"])
  {
    HeadingLines();
    hide CommentText, IndexOf, Heading;
    FirstComment("", FIRST + ['\n'] + ("Test" + ['\n'] + ""));
    FirstComment(FIRST, "Test" + ['\n'] + "");
    FirstComment("Test", "");
    LastComment();
    FourLines("#\n", "# " + FIRST + "\n", "# Test\n", "#\n");
    assert CommentLine("Test") == "# Test\n";
  }

  function Concat(lines: seq<string>): string {
    if lines == [] then "" else lines[0] + Concat(lines[1..])
  }

  lemma FourLines(a: string, b: string, c: string, d: string)
    ensures Concat([a, b, c, d]) == a + (b + (c + d))
  {
    assert [a, b, c, d][1..] == [b, c, d] && [b, c, d][1..] == [c, d] && [c, d][1..] == [d];
    assert Concat([d]) == d + "" == d;
    assert Concat([c, d]) == c + d;
    assert Concat([b, c, d]) == b + (c + d);
  }

  lemma {:induction false} TextIsConcat(m: Menus, items: seq<Item>, lines: seq<string>)
    requires |items| == |lines| && forall k :: 0 <= k < |items| ==> ItemText(m, items[k]) == lines[k]
    ensures Text(m, items) == Concat(lines)
  {
    if items != [] {
      TextIsConcat(m, items[1..], lines[1..]);
    }
  }

  lemma FirstComment(a: string, b: string)
    requires '\n' !in a
    ensures CommentText(a + ['\n'] + b) == CommentLine(a) + CommentText(b)
  {
    FirstIndex(a, '\n', b);
    var v := a + ['\n'] + b;
    assert v[..|a|] == a && v[|a| + 1..] == b;
  }

  lemma LastComment()
    ensures CommentText("") == "#\n"
  {}

  const LINES: seq<string> :=
    ["\n#\n# First\n#\n", "CONFIG_A=y\n", "CONFIG_B=\"a\\\"b\\\\c\"\n", "# end of First\n",
     "\n#\n# Second\n#\n", "# CONFIG_C is not set\n", "# end of Second\n",
     "\n", "CONFIG_D=-5\n", "CONFIG_G=m\n"]

  /** The file: comments for the heading, menus that are visible, an empty line
      after the end of a menu, and each symbol once. */
  lemma ExampleText()
    ensures FileText(MENUS, TREE) == Concat(["#\n", "# " + FIRST + "\n", "# Test\n", "#\n"]) + Concat(LINES)
  {
    hide ItemText, Text, Document, CommentText, Heading, Concat;
    TreeItems();
    HeadingText();
    TextOfA();
    TextOfB();
    TextOfC();
    TextOfD();
    TextOfG();
    MenuTexts();
    TextIsConcat(MENUS, ITEMS, LINES);
  }

  /** The heading is cut where the buffer ends. */
  lemma HeadingFits(m: Menus)
    ensures var text := "\n" + FIRST + "\n" + m.Prompt(m.root) + "\n";
      |Heading(m)| <= 255 && (|text| <= 255 ==> Heading(m) == text) && Heading(m) == text[..|Heading(m)|]
  {}
}
