/** The walk of conf_write over the menu tree, and the items it emits. */
module ConfWalk {
  import opened Options
  import opened Sequences
  import opened Exprs
  import opened MenuLinks
  import opened ConfText

  // What conf_write looks up for menu nodes and symbols, after sym_calc_value.
  datatype Menus = Menus(
    root: Id,
    sym: map<Id, Sym>,
    visible: set<Id>,
    prompt: map<Id, string>,
    choices: set<Sym>,
    writes: set<Sym>,
    values: map<Sym, string>)
  {
    function Prompt(x: Id): string { if x in prompt then prompt[x] else "" }

    function Value(s: Sym): string { if s in values then values[s] else "" }

    predicate IsWritten(s: Sym) { s !in choices && s in writes }
  }

  datatype Event = Enter(id: Id) | Leave(id: Id)

  /** The visits to the nodes in preorder, with the ends of their lists. */
  function Events(ts: seq<Tree>): seq<Event> {
    if ts == [] then [] else [Enter(ts[0].id)] + Below(ts[0]) + Events(ts[1..])
  }

  function Below(t: Tree): seq<Event>
    decreases t, 0
  {
    if t.kids == [] then [] else Events(t.kids) + [Leave(t.id)]
  }

  datatype Item = MenuHead(text: string) | MenuEnd(text: string) | Blank | Line(sym: Sym)

  datatype Doc = Doc(items: seq<Item>, written: set<Sym>, newline: bool)
  {
    function Add(more: seq<Item>): Doc { this.(items := items + more) }
  }

  /** What is written at a visit. */
  function Visit(m: Menus, d: Doc, e: Event): Doc {
    match e
    case Enter(x) =>
      if x !in m.sym then
        (if x in m.visible then d.Add([MenuHead(m.Prompt(x))]).(newline := false) else d)
      else
        var s := m.sym[x];
        if s in m.choices || s in d.written || s !in m.writes then d
        else d.Add((if d.newline then [Blank] else []) + [Line(s)]).(newline := false, written := d.written + {s})
    case Leave(x) =>
      if x !in m.sym && x in m.visible && x != m.root then d.Add([MenuEnd(m.Prompt(x))]).(newline := true) else d
  }

  function Visits(m: Menus, d: Doc, es: seq<Event>): Doc
    decreases |es|
  {
    if es == [] then d else Visits(m, Visit(m, d, es[0]), es[1..])
  }

  function ItemText(m: Menus, i: Item): string {
    match i
    case MenuHead(text) => "\n#\n# " + text + "\n#\n"
    case MenuEnd(text) => "# end of " + text + "\n"
    case Blank => "\n"
    case Line(s) => PrintSymbol(s, m.Value(s))
  }

  function Text(m: Menus, items: seq<Item>): string {
    if items == [] then "" else ItemText(m, items[0]) + Text(m, items[1..])
  }

  lemma {:induction false} TextConcat(m: Menus, a: seq<Item>, b: seq<Item>)
    ensures Text(m, a + b) == Text(m, a) + Text(m, b)
  {
    if a == [] {
      assert a + b == b && Text(m, []) == "";
      assert "" + Text(m, b) == Text(m, b);
    } else {
      assert (a + b)[1..] == a[1..] + b && (a + b)[0] == a[0];
      TextConcat(m, a[1..], b);
      assert ItemText(m, a[0]) + (Text(m, a[1..]) + Text(m, b)) == ItemText(m, a[0]) + Text(m, a[1..]) + Text(m, b);
    }
  }

  lemma TextOfOne(m: Menus, i: Item)
    ensures Text(m, [i]) == ItemText(m, i)
  {
    hide ItemText;
    assert Text(m, []) == "" && ItemText(m, i) + "" == ItemText(m, i);
  }

  // ---------- the file ----------

  function CommentLine(x: string): string { if x == "" then "#\n" else "# " + x + "\n" }

  function CommentText(value: string): string {
    match IndexOf(value, '\n')
    case None => CommentLine(value)
    case Some(i) => CommentLine(value[..i]) + CommentText(value[i + 1..])
  }

  const BUFFER: nat := 256

  // snprintf cuts the text to the size of its buffer (conf_write_heading).
  function Heading(m: Menus): string {
    var text := "\n" + "Automatically generated file; DO NOT EDIT." + "\n" + m.Prompt(m.root) + "\n";
    if |text| < BUFFER then text else text[..BUFFER - 1]
  }

  function Document(m: Menus, t: Tree): Doc { Visits(m, Doc([], {}, false), Below(t)) }

  function FileText(m: Menus, t: Tree): string {
    CommentText(Heading(m)) + Text(m, Document(m, t).items)
  }

  // ---------- the walk ----------

  // The lists the walk is in, the innermost last; each begins with the node the
  // walk is at or below.
  type Stack = seq<seq<Tree>>

  function Init(stack: Stack): Stack
    requires stack != []
  {
    stack[..|stack| - 1]
  }

  function Top(stack: Stack): seq<Tree>
    requires stack != []
  {
    stack[|stack| - 1]
  }

  // The visits after the walk has left the innermost list.
  function Outer(stack: Stack): seq<Event> {
    if stack == [] then []
    else (if Top(stack) == [] then [] else After(Top(stack))) + Outer(Init(stack))
  }

  // The visits after the list of the first node of ts.
  function After(ts: seq<Tree>): seq<Event>
    requires ts != []
  {
    [Leave(ts[0].id)] + Events(ts[1..])
  }

  // The visits from the node the walk is about to enter.
  function Todo(stack: Stack): seq<Event>
    requires stack != []
  {
    Events(Top(stack)) + Outer(Init(stack))
  }

  function Parent(stack: Stack): Option<Id> {
    if stack == [] || Top(stack) == [] then None else Some(Top(stack)[0].id)
  }

  /** The pointers of h represent the lists. */
  ghost predicate InLists(h: Links, stack: Stack) {
    stack == []
    || (Top(stack) != [] && Chain(h, Top(stack), Parent(Init(stack)), None) && InLists(h, Init(stack)))
  }

  // The pointers at the node the walk is at.
  lemma AtTop(h: Links, stack: Stack)
    requires InLists(h, stack) && stack != []
    ensures var t, rest := Top(stack)[0], Top(stack)[1..];
      && Get(h.list, t.id) == Head(t.kids, None) && Get(h.next, t.id) == Head(rest, None)
      && Get(h.parent, t.id) == Parent(Init(stack)) && Chain(h, t.kids, Some(t.id), None)
      && Chain(h, rest, Parent(Init(stack)), None)
  {}

  // The visits from there on.
  lemma FromTop(stack: Stack)
    requires stack != [] && Top(stack) != []
    ensures var t, rest := Top(stack)[0], Top(stack)[1..];
      Todo(stack) == [Enter(t.id)] + (Below(t) + (Events(rest) + Outer(Init(stack))))
  {
    hide Events, Below, Outer;
    var t, rest := Top(stack)[0], Top(stack)[1..];
    FirstEvents(Top(stack));
    Regroup4([Enter(t.id)], Below(t), Events(rest), Outer(Init(stack)));
  }

  // At a node without children.
  lemma LeafVisits(t: Tree, rest: seq<Tree>, outer: seq<Event>)
    requires t.kids == []
    ensures Below(t) + (Events(rest) + outer) == Events(rest) + outer
    ensures rest == [] ==> Events(rest) + outer == outer
  {}

  lemma FirstEvents(ts: seq<Tree>)
    requires ts != []
    ensures Events(ts) == [Enter(ts[0].id)] + Below(ts[0]) + Events(ts[1..])
  {}

  // Into the list of the node.
  lemma Down(h: Links, stack: Stack)
    requires InLists(h, stack) && stack != [] && Top(stack)[0].kids != []
    ensures var t, rest := Top(stack)[0], Top(stack)[1..];
      && InLists(h, stack + [t.kids])
      && Todo(stack + [t.kids]) == Below(t) + (Events(rest) + Outer(Init(stack)))
  {
    var t, rest := Top(stack)[0], Top(stack)[1..];
    var s := stack + [t.kids];
    AtTop(h, stack);
    assert Init(s) == stack && Top(s) == t.kids;
    assert Below(t) == Events(t.kids) + [Leave(t.id)];
    hide Events, Below, Outer, Chain;
    Up(stack);
    Regroup(Events(t.kids), [Leave(t.id)], Events(rest) + Outer(Init(stack)));
  }

  // To the next node of the list.
  lemma Right(h: Links, stack: Stack)
    requires InLists(h, stack) && stack != [] && |Top(stack)| > 1
    ensures var s := Init(stack) + [Top(stack)[1..]];
      InLists(h, s) && Todo(s) == Events(Top(stack)[1..]) + Outer(Init(stack))
  {
    hide Events, Outer;
    var s := Init(stack) + [Top(stack)[1..]];
    AtTop(h, stack);
    assert Init(s) == Init(stack) && Top(s) == Top(stack)[1..];
  }

  // Out of the list.
  lemma Up(stack: Stack)
    requires stack != [] && Top(stack) != []
    ensures Outer(stack) == [Leave(Top(stack)[0].id)] + (Events(Top(stack)[1..]) + Outer(Init(stack)))
  {
    hide Events;
    Regroup([Leave(Top(stack)[0].id)], Events(Top(stack)[1..]), Outer(Init(stack)));
  }
}
