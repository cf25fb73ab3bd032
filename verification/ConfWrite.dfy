/** conf_write: the menu tree is walked without a stack. */
module ConfWrite {
  import opened Options
  import opened Sequences
  import opened Exprs
  import opened MenuLinks
  import opened ConfText
  import opened ConfLines
  import opened ConfWalk
  import opened ConfEscape

  class Writer {
    const m: Menus
    const links: Links
    var written: set<Sym>  // the symbols with SYMBOL_WRITTEN
    var needNewline: bool
    var out: string

    constructor (m: Menus, links: Links)
      ensures this.m == m && this.links == links && written == {} && out == ""
    {
      this.m, this.links, written, needNewline, out := m, links, {}, false, "";
    }

    /** The output is d after the text `before`. */
    ghost predicate Shows(d: Doc, before: string)
      reads this
    {
      written == d.written && needNewline == d.newline && out == before + Text(m, d.items)
    }

    // fprintf
    method Put(text: string, ghost d: Doc, ghost before: string, ghost i: Item)
      requires Shows(d, before) && text == ItemText(m, i)
      modifies this`out
      ensures Shows(d.Add([i]), before)
    {
      hide ItemText, Text;
      TextConcat(m, d.items, [i]);
      TextOfOne(m, i);
      Regroup(before, Text(m, d.items), text);
      out := out + text;
    }

    method EnterMenu(x: Id, ghost d: Doc, ghost before: string)
      requires Shows(d, before)
      modifies this
      ensures Shows(Visit(m, d, Enter(x)), before)
    {
      hide Text;
      if x !in m.sym {
        if x in m.visible {
          Put("\n#\n# " + m.Prompt(x) + "\n#\n", d, before, MenuHead(m.Prompt(x)));
          needNewline := false;
        }
      } else {
        var s := m.sym[x];
        if s !in m.choices && s !in written {
          if s !in m.writes {
            return;
          }
          ghost var d' := d;
          if needNewline {
            Put("\n", d', before, Blank);
            d' := d'.Add([Blank]);
            needNewline := false;
          }
          written := written + {s};
          d' := d'.(newline := false, written := d.written + {s});
          var text := ConfWriteSymbol(s, m.Value(s));
          Put(text, d', before, Line(s));
          assert d'.Add([Line(s)]) == Visit(m, d, Enter(x)) by {
            Regroup(d.items, [Blank], [Line(s)]);
            assert d.items + ([] + [Line(s)]) == d.items + [Line(s)];
          }
        }
      }
    }

    method LeaveMenu(x: Id, ghost d: Doc, ghost before: string)
      requires Shows(d, before)
      modifies this
      ensures Shows(Visit(m, d, Leave(x)), before)
    {
      hide Text;
      if x !in m.sym && x in m.visible && x != m.root {
        Put("# end of " + m.Prompt(x) + "\n", d, before, MenuEnd(m.Prompt(x)));
        needNewline := true;
      }
    }

    // The inner loop: up to the next node that has not been visited.
    method Climb(x: Id, ghost stack0: Stack, ghost d0: Doc, ghost before: string)
      returns (menu: Option<Id>, ghost stack: Stack, ghost todo: seq<Event>, ghost d: Doc)
      requires InLists(links, stack0) && stack0 != [] && x == Top(stack0)[0].id && Shows(d0, before)
      modifies this
      ensures Shows(d, before) && Visits(m, d, todo) == Visits(m, d0, Outer(Init(stack0)))
      ensures |todo| <= |Outer(Init(stack0))|
      ensures if menu.None? then todo == []
              else stack != [] && InLists(links, stack) && menu.value == Top(stack)[0].id && todo == Todo(stack)
    {
      AtTop(links, stack0);
      menu, stack, d := Get(links.parent, x), Init(stack0), d0;
      todo := Outer(stack);
      while menu.Some?
        invariant Shows(d, before) && Visits(m, d, todo) == Visits(m, d0, Outer(Init(stack0)))
        invariant |todo| <= |Outer(Init(stack0))| && todo == Outer(stack)
        invariant InLists(links, stack) && menu == Parent(stack)
        decreases |stack|
      {
        var y := menu.value;
        AtTop(links, stack);
        Up(stack);
        LeaveMenu(y, d, before);
        d := Visit(m, d, Leave(y));
        todo := todo[1..];
        if y in links.next {
          Right(links, stack);
          menu := Get(links.next, y);
          stack := Init(stack) + [Top(stack)[1..]];
          return;
        }
        menu, stack := Get(links.parent, y), Init(stack);
      }
    }

    // What the walk has still to do when it is at `menu`.
    ghost predicate IsAt(menu: Option<Id>, stack: Stack, todo: seq<Event>) {
      if menu.None? then todo == []
      else stack != [] && InLists(links, stack) && menu.value == Top(stack)[0].id && todo == Todo(stack)
    }

    // The list of the root, if it has one.
    lemma AtStart(t: Tree) returns (stack: Stack)
      requires Chain(links, [t], None, None)
      ensures IsAt(Get(links.list, t.id), stack, Below(t))
    {
      stack := [[t]];
      if t.kids != [] {
        Down(links, stack);
        assert Top(stack) == [t] && Init(stack) == [] && [t][1..] == [];
        assert Below(t) + ([] + []) == Below(t);
        stack := stack + [t.kids];
      }
    }

    /** The loop of conf_write: each node of the tree is visited once, in
        preorder. */
    method Walk(ghost t: Tree, ghost d0: Doc, ghost before: string)
      requires Chain(links, [t], None, None) && t.id == m.root && Shows(d0, before)
      modifies this
      ensures Shows(Visits(m, d0, Below(t)), before)
    {
      hide Shows, IsAt, Visits, Below, Chain;
      var menu := Get(links.list, m.root);
      ghost var stack := AtStart(t);
      ghost var d, todo := d0, Below(t);
      while menu.Some?
        invariant Shows(d, before) && Visits(m, d, todo) == Visits(m, d0, Below(t))
        invariant IsAt(menu, stack, todo)
        decreases |todo|
      {
        menu, stack, todo, d := WalkOn(menu.value, stack, todo, d, before);
      }
      NothingLeft(menu, stack, todo, d);
    }

    lemma NothingLeft(menu: Option<Id>, stack: Stack, todo: seq<Event>, d: Doc)
      requires IsAt(menu, stack, todo) && menu.None?
      ensures Visits(m, d, todo) == d
    {}

    // One round of it: to the list of x, to the next node, or up.
    method WalkOn(x: Id, ghost stack0: Stack, ghost todo0: seq<Event>, ghost d0: Doc, ghost before: string)
      returns (menu: Option<Id>, ghost stack: Stack, ghost todo: seq<Event>, ghost d: Doc)
      requires IsAt(Some(x), stack0, todo0) && Shows(d0, before)
      modifies this
      ensures IsAt(menu, stack, todo) && Shows(d, before)
      ensures Visits(m, d, todo) == Visits(m, d0, todo0) && |todo| < |todo0|
    {
      hide Shows, Visit, Visits, Text, Below, Events, Outer;
      FromTop(stack0);
      AtTop(links, stack0);
      EnterMenu(x, d0, before);
      OneVisit(d0, todo0);
      d, stack, todo := Visit(m, d0, Enter(x)), stack0, todo0[1..];
      if x in links.list {
        Down(links, stack);
        menu := Get(links.list, x);
        stack := stack + [Top(stack)[0].kids];
      } else if x in links.next {
        Right(links, stack);
        LeafVisits(Top(stack)[0], Top(stack)[1..], Outer(Init(stack)));
        menu := Get(links.next, x);
        stack := Init(stack) + [Top(stack)[1..]];
      } else {
        LeafVisits(Top(stack)[0], Top(stack)[1..], Outer(Init(stack)));
        menu, stack, todo, d := Climb(x, stack, d, before);
      }
    }

    lemma OneVisit(d: Doc, es: seq<Event>)
      requires es != []
      ensures Visits(m, d, es) == Visits(m, Visit(m, d, es[0]), es[1..])
    {}

    // kconfig_print_comment
    method PrintComment(value: string)
      modifies this`out
      ensures out == old(out) + CommentText(value)
    {
      hide *;
      var p := 0;
      ghost var whole := out + CommentText(value);
      assert value[0..] == value;
      while true
        invariant p <= |value| && out + CommentText(value[p..]) == whole
        decreases |value| - p
      {
        var l := LengthToNewline(value, p);
        CommentStep(value, p, l, out);
        out := out + CommentLine(value[p..p + l]);
        p := p + l;
        if p == |value| {
          break;
        }
        p := p + 1;
      }
    }

    /** conf_write: the heading and the walk; the marks are taken off again. */
    method Write(ghost t: Tree)
      requires Chain(links, [t], None, None) && t.id == m.root && written == {} && out == ""
      modifies this
      ensures out == FileText(m, t) && written == {}
    {
      needNewline := false;
      PrintComment(Heading(m));
      assert "" + CommentText(Heading(m)) == CommentText(Heading(m));
      ghost var heading := out;
      assert heading + Text(m, []) == heading by { assert Text(m, []) == ""; }
      Walk(t, Doc([], {}, false), heading);
      written := {};
    }
  }

  /** conf_write_symbol: string values are escaped. */
  method ConfWriteSymbol(s: Sym, value: string) returns (text: string)
    ensures text == PrintSymbol(s, value)
  {
    match s.Type() {
      case Unknown => text := "";
      case StringType =>
        var str := EscapeStringValue(value);
        text := PrintText(s, str[..str.Length - 1]);
      case _ => text := PrintText(s, value);
    }
  }

  // strcspn(p, "\n")
  method LengthToNewline(s: string, p: nat) returns (l: nat)
    requires p <= |s|
    ensures p + l <= |s| && '\n' !in s[p..p + l] && (p + l < |s| ==> s[p + l] == '\n')
  {
    l := 0;
    while p + l < |s| && s[p + l] != '\n'
      invariant p + l <= |s| && '\n' !in s[p..p + l]
    {
      assert s[p..p + l + 1] == s[p..p + l] + [s[p + l]];
      l := l + 1;
    }
  }

  lemma CommentStep(value: string, p: nat, l: nat, out: string)
    requires p + l <= |value| && '\n' !in value[p..p + l] && (p + l < |value| ==> value[p + l] == '\n')
    ensures p + l < |value| ==>
              out + CommentText(value[p..]) == out + CommentLine(value[p..p + l]) + CommentText(value[p + l + 1..])
    ensures p + l == |value| ==> out + CommentText(value[p..]) == out + CommentLine(value[p..p + l])
  {
    hide CommentText, CommentLine, IndexOf;
    var x := value[p..p + l];
    if p + l < |value| {
      var rest := value[p + l + 1..];
      FirstNewline(x, rest);
      assert value[p..] == x + ['\n'] + rest;
      Regroup(out, CommentLine(x), CommentText(rest));
    } else {
      assert value[p..] == x;
      LastCommentLine(x);
    }
  }

  lemma LastCommentLine(x: string)
    requires '\n' !in x
    ensures CommentText(x) == CommentLine(x)
  {}

  lemma FirstNewline(a: string, b: string)
    requires '\n' !in a
    ensures CommentText(a + ['\n'] + b) == CommentLine(a) + CommentText(b)
  {
    FirstIndex(a, '\n', b);
    var v := a + ['\n'] + b;
    assert v[..|a|] == a && v[|a| + 1..] == b;
  }
}
