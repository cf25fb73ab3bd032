/** How the pointers of the menu tree change when trees are moved. */
module MenuMoves {
  import opened Options
  import opened Exprs
  import opened MenuLinks

  lemma NextOfLast(h: Links, ts: seq<Tree>, i: nat, par: Option<Id>, end: Option<Id>)
    requires i < |ts| && Chain(h, ts[..i + 1], par, end)
    ensures Get(h.next, ts[i].id) == end
  {
    assert ts[..i + 1] == ts[..i] + [ts[i]];
    ChainConcat(h, ts[..i], [ts[i]], par, end);
  }

  // Reparenting the i-th tree moves it from the unprocessed part to the other.
  lemma ReparentStep(h: Links, ts: seq<Tree>, i: nat, par: Option<Id>, p: Id)
    requires i < |ts| && Distinct(ts)
    requires Chain(h, ts[..i], Some(p), Head(ts[i..], None))
    requires Chain(h, ts[i..], par, None)
    ensures ts[i].id in Nodes(ts)
    ensures var g := SetParent(h, ts[i].id, Some(p));
      && Chain(g, ts[..i + 1], Some(p), Head(ts[i + 1..], None))
      && Chain(g, ts[i + 1..], par, None)
  {
    assert ts == ts[..i] + ts[i..] && ts[i..] == [ts[i]] + ts[i + 1..] && ts[..i + 1] == ts[..i] + [ts[i]];
    NodesConcat(ts[..i], ts[i..]);
    Adopt(h, ts[..i], ts[i], ts[i + 1..], par, p);
  }

  /** The first tree t of a chain becomes the last child of p. */
  lemma Adopt(h: Links, taken: seq<Tree>, t: Tree, rest: seq<Tree>, par: Option<Id>, p: Id)
    requires Distinct([t] + rest) && Nodes(taken) !! Nodes([t] + rest)
    requires Chain(h, taken, Some(p), Some(t.id)) && Chain(h, [t] + rest, par, None)
    ensures var g := SetParent(h, t.id, Some(p));
      && Chain(g, taken + [t], Some(p), Head(rest, None))
      && Chain(g, rest, par, None)
  {
    var g, end := SetParent(h, t.id, Some(p)), Head(rest, None);
    NodesConcat([t], rest);
    ChainConcat(h, [t], rest, par, None);
    ChainReparent(h, t, par, Some(p), end);
    ChainFrame(h, g, rest, par, None);
    ChainFrame(h, g, taken, Some(p), Some(t.id));
    ChainConcat(g, taken, [t], Some(p), end);
  }

  // The same, where the nodes before t are those of `before`.
  lemma AdoptNext(h: Links, taken: seq<Tree>, t: Tree, before: seq<Tree>, rest: seq<Tree>, par: Option<Id>, p: Id)
    requires Distinct(before) && Distinct(rest) && Nodes(before) !! Nodes(rest)
    requires Ids(taken + [t]) == Ids(before)
    requires Chain(h, taken, Some(p), Some(t.id)) && Chain(h, [t] + rest, par, None)
    ensures var g := SetParent(h, t.id, Some(p));
      && t.id in Nodes(before)
      && Chain(g, taken + [t], Some(p), Head(rest, None)) && Chain(g, rest, par, None)
      && Get(g.next, t.id) == Head(rest, None)
  {
    SamePreorder(taken + [t], before, None);
    NodesConcat(taken, [t]);
    NodesConcat([t], rest);
    Adopt(h, taken, t, rest, par, p);
    assert ([t] + rest)[1..] == rest && ([t] + rest)[0] == t;
  }

  // The pointers after the trees up to `last` become the list of p.
  function Submenu(h: Links, p: Id, last: Id): Links {
    var g := SetList(h, p, Get(h.next, p));
    SetNext(SetNext(g, p, Get(g.next, last)), last, None)
  }

  lemma SubmenuChain(h: Links, p: Id, taken: seq<Tree>, rest: seq<Tree>, par: Option<Id>)
    requires taken != [] && Distinct(taken) && Distinct(rest)
    requires Nodes(taken) !! Nodes(rest) && p !in Nodes(taken) && p !in Nodes(rest)
    requires Get(h.next, p) == Head(taken, None) && Get(h.parent, p) == par
    requires Chain(h, taken, Some(p), Head(rest, None)) && Chain(h, rest, par, None)
    ensures var last := taken[|taken| - 1].id;
      && last in Nodes(taken)
      && Chain(Submenu(h, p, last), [Node(p, taken)] + rest, par, None)
  {
    var last, n := taken[|taken| - 1].id, |taken| - 1;
    var g, f := SetNext(h, last, None), Submenu(h, p, last);
    assert taken[..n + 1] == taken;
    NextOfLast(h, taken, n, Some(p), Head(rest, None));
    ChainRelink(h, taken, Some(p), Head(rest, None), None);
    ChainFrame(g, f, taken, Some(p), None);
    ChainFrame(h, f, rest, par, None);
    assert ([Node(p, taken)] + rest)[1..] == rest;
  }

  // The pointers after the list of m is linked in behind it.
  function Spliced(h: Links, m: Id, last: Id): Links {
    var g := SetNext(h, last, Get(h.next, m));
    SetList(SetNext(g, m, Get(g.list, m)), m, None)
  }

  lemma SplicedChain(h: Links, m: Id, p: Id, ks: seq<Tree>, rest: seq<Tree>)
    requires ks != [] && Distinct([Node(m, ks)] + rest)
    requires Get(h.parent, m) == Some(p) && Get(h.list, m) == Head(ks, None) && Get(h.next, m) == Head(rest, None)
    requires Chain(h, ks, Some(p), None) && Chain(h, rest, Some(p), None)
    ensures var last := ks[|ks| - 1].id;
      && last in Nodes(ks)
      && Chain(Spliced(h, m, last), [Node(m, [])] + (ks + rest), Some(p), None)
  {
    ghost var t := [Node(m, ks)];
    assert t[0] == Node(m, ks) && (t + rest)[1..] == rest;
    var last, next := ks[|ks| - 1].id, Head(rest, None);
    var g, f := SetNext(h, last, next), Spliced(h, m, last);
    ChainRelink(h, ks, Some(p), None, next);
    ChainFrame(g, f, ks, Some(p), next);
    ChainFrame(h, f, rest, Some(p), None);
    ChainConcat(f, ks, rest, Some(p), None);
    assert ([Node(m, [])] + (ks + rest))[1..] == ks + rest;
  }

  lemma IdsCons(t: Tree, rest: seq<Tree>)
    ensures Ids([t] + rest) == [t.id] + (Ids(t.kids) + Ids(rest))
  {
    assert ([t] + rest)[0] == t && ([t] + rest)[1..] == rest;
    assert [t.id] + Ids(t.kids) + Ids(rest) == [t.id] + (Ids(t.kids) + Ids(rest));
  }

  /** Splicing keeps the preorder and leaves fewer nodes to process. */
  lemma SpliceKeepsPreorder(before: seq<Tree>, t: Tree, rest: seq<Tree>)
    ensures Ids(before + ([Node(t.id, [])] + (t.kids + rest))) == Ids(before + ([t] + rest))
    ensures |Ids(t.kids + rest)| < |Ids([t] + rest)|
  {
    var old', new' := [t] + rest, [Node(t.id, [])] + (t.kids + rest);
    assert Ids(new') == Ids(old') && |Ids(t.kids + rest)| < |Ids(old')| by {
      IdsCons(t, rest);
      IdsConcat(t.kids, rest);
      IdsCons(Node(t.id, []), t.kids + rest);
    }
    IdsConcat(before, old');
    IdsConcat(before, new');
  }

  // In a chain the node after the trees `before` links to the rest.
  lemma NextInChain(h: Links, before: seq<Tree>, t: Tree, rest: seq<Tree>, par: Option<Id>)
    requires Chain(h, before + ([t] + rest), par, None)
    ensures Get(h.next, t.id) == Head(rest, None)
  {
    ChainConcat(h, before, [t] + rest, par, None);
    assert ([t] + rest)[1..] == rest;
  }

  // p has the list `taken`, made of the first n trees of rest, before the others.
  ghost predicate IsClosed(h0: Links, h: Links, taken: seq<Tree>, p: Id, rest: seq<Tree>, n: nat, par: Option<Id>)
    requires n <= |rest|
  {
    Chain(h, [Node(p, taken)] + rest[n..], par, None) && OnlyAt(h0, h, {p} + Nodes(rest[..n]))
  }

  /** Linking in the entries found after t gives it a submenu. */
  lemma CloseChain(h0: Links, h: Links, taken: seq<Tree>, t: Tree, rest: seq<Tree>, n: nat, par: Option<Id>)
    requires t.kids == [] && n <= |rest| && Distinct([t] + rest) && Chain(h0, [t] + rest, par, None)
    requires Ids(taken) == Ids(rest[..n]) && OnlyAt(h0, h, Nodes(rest[..n]))
    requires Chain(h, taken, Some(t.id), Head(rest[n..], None)) && Chain(h, rest[n..], par, None)
    ensures IsClosed(h0, if taken == [] then h else Submenu(h, t.id, taken[|taken| - 1].id),
                     taken, t.id, rest, n, par)
  {
    hide Chain, Ids, Distinct, Nodes;
    ChainTop(h0, t, rest, par);
    PartsOf(rest, n);
    SamePreorder(taken, rest[..n], Head(rest[n..], None));
    if taken == [] {
      EmptyPreorder(taken);
      EmptyPreorder(rest[..n]);
      assert n == 0;
      assert rest[n..] == rest && t == Node(t.id, []);
      ChainFrame(h0, h, [t] + rest, par, None);
    } else {
      assert Head(taken, None) == Head(rest[..n], None) == Head(rest, None) by {
        SamePreorder(taken, rest[..n], None);
        EmptyPreorder(taken);
      }
      assert SameAt(h0, h, t.id);
      SubmenuChain(h, t.id, taken, rest[n..], par);
    }
  }

  lemma ChainTop(h: Links, t: Tree, rest: seq<Tree>, par: Option<Id>)
    requires Distinct([t] + rest) && Chain(h, [t] + rest, par, None)
    ensures Distinct(rest) && t.id !in Nodes(rest) && Nodes([t] + rest) == Nodes([t]) + Nodes(rest)
    ensures Get(h.next, t.id) == Head(rest, None) && Get(h.parent, t.id) == par
    ensures t.kids == [] ==> Nodes([t]) == {t.id}
  {
    assert ([t] + rest)[0] == t && ([t] + rest)[1..] == rest;
  }

  lemma EmptyPreorder(ts: seq<Tree>)
    ensures ts == [] <==> Ids(ts) == []
    ensures ts == [] ==> Nodes(ts) == {}
  {}

  lemma PartsOf(ts: seq<Tree>, n: nat)
    requires n <= |ts| && Distinct(ts)
    ensures Distinct(ts[..n]) && Distinct(ts[n..]) && Nodes(ts[..n]) !! Nodes(ts[n..])
    ensures Nodes(ts) == Nodes(ts[..n]) + Nodes(ts[n..])
    ensures |Ids(ts[n..])| <= |Ids(ts)|
  {
    assert ts == ts[..n] + ts[n..];
    NodesConcat(ts[..n], ts[n..]);
    IdsConcat(ts[..n], ts[n..]);
  }

  // The list of a node, as a chain of its own.
  lemma TopKids(h: Links, t: Tree, rest: seq<Tree>, par: Option<Id>)
    requires Distinct([t] + rest) && Chain(h, [t] + rest, par, None)
    ensures Distinct(t.kids) && t.id !in Nodes(t.kids) && Nodes(t.kids) <= Nodes([t])
    ensures Nodes([t]) == {t.id} + Nodes(t.kids)
    ensures Chain(h, t.kids, Some(t.id), None) && Get(h.list, t.id) == Head(t.kids, None)
    ensures Ids([t]) == [t.id] + Ids(t.kids) && |Ids(t.kids)| < |Ids([t] + rest)|
  {
    assert ([t] + rest)[0] == t && ([t] + rest)[1..] == rest;
    IdsCons(t, rest);
    IdsCons(t, []);
    assert [t] + [] == [t] && [t][1..] == [] && Nodes([]) == {};
  }

  /** The list below a node may be rearranged on its own. */
  lemma ReplaceKids(h: Links, g: Links, t: Tree, kids: seq<Tree>, rest: seq<Tree>, par: Option<Id>)
    requires Distinct([t] + rest) && Chain(h, [t] + rest, par, None)
    requires OnlyAt(h, g, Nodes(t.kids)) && Chain(g, kids, Some(t.id), None) && Ids(kids) == Ids(t.kids)
    ensures var t' := Node(t.id, kids);
      && Chain(g, [t'] + rest, par, None) && Ids([t']) == Ids([t]) && Distinct([t'] + rest)
  {
    var t' := Node(t.id, kids);
    assert ([t] + rest)[0] == t && ([t] + rest)[1..] == rest;
    assert ([t'] + rest)[0] == t' && ([t'] + rest)[1..] == rest;
    SamePreorder(kids, t.kids, None);
    assert SameAt(h, g, t.id);
    ChainFrame(h, g, rest, par, None);
  }

  lemma OneTree(t: Tree, rest: seq<Tree>)
    ensures Nodes([t]) == {t.id} + Nodes(t.kids) && Nodes([t] + rest) == Nodes([t]) + Nodes(rest)
    ensures Ids([t]) == [t.id] + Ids(t.kids)
  {
    assert ([t] + rest)[0] == t && ([t] + rest)[1..] == rest && [t][1..] == [];
    assert Ids([]) == [] && Nodes([]) == {};
  }

  lemma TakenPreorder(t: Tree, rest: seq<Tree>, n: nat, taken: seq<Tree>)
    requires t.kids == [] && n <= |rest| && Ids(taken) == Ids(rest[..n])
    requires Distinct([t] + rest)
    ensures t.id !in Nodes(rest[..n])
    ensures Ids([Node(t.id, taken)]) == Ids([t] + rest[..n])
    ensures Nodes([t] + rest[..n]) == {t.id} + Nodes(rest[..n])
  {
    hide Ids, Nodes, Distinct;
    EmptyPreorder([]);
    NodesConcat([t], rest);
    PartsOf(rest, n);
    OneTree(t, rest[..n]);
    OneTree(Node(t.id, taken), []);
    IdsCons(t, rest[..n]);
  }

  /** The tree t' has taken the place of t and the first n trees of rest. */
  lemma TakenPlace(t: Tree, t': Tree, rest: seq<Tree>, n: nat)
    requires n <= |rest| && Ids([t']) == Ids([t] + rest[..n]) && Distinct([t] + rest)
    ensures Distinct([t'] + rest[n..]) && Nodes([t']) == Nodes([t] + rest[..n])
  {
    hide Ids, Nodes, Distinct;
    assert [t] + rest == ([t] + rest[..n]) + rest[n..];
    IdsConcat([t'], rest[n..]);
    IdsConcat([t] + rest[..n], rest[n..]);
    SamePreorder([t'] + rest[n..], [t] + rest, None);
    SamePreorder([t'], [t] + rest[..n], None);
  }

  lemma OnlyAtMore(a: Links, b: Links, s: set<Id>, u: set<Id>)
    requires (OnlyAt(a, b, s) && s <= u) || a == b
    ensures OnlyAt(a, b, u)
  {}

  lemma OnlyAtParent(a: Links, b: Links, x: Id, p: Id, s: set<Id>)
    requires OnlyAt(a, b, s) && x in s
    ensures OnlyAt(a, SetParent(b, x, Some(p)), s)
  {}

  lemma ChainRest(h: Links, t: Tree, rest: seq<Tree>, par: Option<Id>)
    requires Chain(h, [t] + rest, par, None)
    ensures Chain(h, rest, par, None)
  {
    ChainConcat(h, [t], rest, par, None);
  }

  lemma OnlyAtTransitive(a: Links, b: Links, c: Links, s: set<Id>, u: set<Id>)
    requires OnlyAt(a, b, s) && OnlyAt(b, c, u) && u <= s
    ensures OnlyAt(a, c, s)
  {
    forall x | x !in s ensures SameAt(a, c, x) {
      assert SameAt(a, b, x) && SameAt(b, c, x);
    }
  }
}
