/** The linked menu tree: struct menu's next, list and parent pointers, and the
    forest they represent. */
module MenuLinks {
  import opened Options
  import opened Exprs

  type Id = nat

  datatype Tree = Node(id: Id, kids: seq<Tree>)

  // A NULL pointer is an absent entry.
  datatype Links = Links(next: map<Id, Id>, list: map<Id, Id>, parent: map<Id, Id>)

  function Get(m: map<Id, Id>, k: Id): Option<Id> { if k in m then Some(m[k]) else None }

  function Put(m: map<Id, Id>, k: Id, x: Option<Id>): map<Id, Id> {
    if x.Some? then m[k := x.value] else m - {k}
  }

  function SetNext(h: Links, k: Id, x: Option<Id>): Links { h.(next := Put(h.next, k, x)) }

  function SetList(h: Links, k: Id, x: Option<Id>): Links { h.(list := Put(h.list, k, x)) }

  function SetParent(h: Links, k: Id, x: Option<Id>): Links { h.(parent := Put(h.parent, k, x)) }

  /** The nodes in preorder. */
  function Ids(ts: seq<Tree>): seq<Id> {
    if ts == [] then [] else [ts[0].id] + Ids(ts[0].kids) + Ids(ts[1..])
  }

  // The pointer to the first tree of a chain that is followed by `end`.
  function Head(ts: seq<Tree>, end: Option<Id>): Option<Id> {
    if ts == [] then end else Some(ts[0].id)
  }

  /** The pointers of h represent the chain ts, whose nodes have the parent par
      and which ends with the pointer `end`. */
  predicate Chain(h: Links, ts: seq<Tree>, par: Option<Id>, end: Option<Id>) {
    ts == [] ||
    var t, rest := ts[0], ts[1..];
    && Get(h.parent, t.id) == par
    && Get(h.list, t.id) == Head(t.kids, None)
    && Get(h.next, t.id) == Head(rest, end)
    && Chain(h, t.kids, Some(t.id), None)
    && Chain(h, rest, par, end)
  }

  /** The set of nodes. */
  function Nodes(ts: seq<Tree>): set<Id> {
    if ts == [] then {} else {ts[0].id} + Nodes(ts[0].kids) + Nodes(ts[1..])
  }

  // No node occurs twice.
  predicate Distinct(ts: seq<Tree>) {
    ts == [] ||
    var t, rest := ts[0], ts[1..];
    && t.id !in Nodes(t.kids) && t.id !in Nodes(rest) && Nodes(t.kids) !! Nodes(rest)
    && Distinct(t.kids) && Distinct(rest)
  }

  predicate SameAt(h: Links, g: Links, x: Id) {
    Get(h.next, x) == Get(g.next, x) && Get(h.list, x) == Get(g.list, x) && Get(h.parent, x) == Get(g.parent, x)
  }

  // Only the pointers of the given nodes differ.
  ghost predicate OnlyAt(h: Links, g: Links, ids: set<Id>) {
    forall x :: x !in ids ==> SameAt(h, g, x)
  }

  // ---------- forests and their nodes ----------

  lemma {:induction false} IdsConcat(a: seq<Tree>, b: seq<Tree>)
    ensures Ids(a + b) == Ids(a) + Ids(b)
  {
    if a != [] {
      assert (a + b)[1..] == a[1..] + b;
      IdsConcat(a[1..], b);
    } else {
      assert a + b == b;
    }
  }

  lemma {:induction false} NodesConcat(a: seq<Tree>, b: seq<Tree>)
    ensures Nodes(a + b) == Nodes(a) + Nodes(b)
    ensures Distinct(a + b) <==> Distinct(a) && Distinct(b) && Nodes(a) !! Nodes(b)
  {
    if a != [] {
      assert (a + b)[0] == a[0] && (a + b)[1..] == a[1..] + b;
      NodesConcat(a[1..], b);
    } else {
      assert a + b == b;
    }
  }

  // ---------- preorder and nodes ----------

  predicate NoDup(s: seq<Id>) {
    forall i, j :: 0 <= i < j < |s| ==> s[i] != s[j]
  }

  function Elems(s: seq<Id>): set<Id> { set x | x in s }

  lemma ElemsConcat(a: seq<Id>, b: seq<Id>)
    ensures Elems(a + b) == Elems(a) + Elems(b)
  {}

  lemma {:induction false} NodesAreIds(ts: seq<Tree>)
    ensures Elems(Ids(ts)) == Nodes(ts)
  {
    if ts != [] {
      NodesAreIds(ts[0].kids);
      NodesAreIds(ts[1..]);
      ElemsConcat([ts[0].id], Ids(ts[0].kids));
      ElemsConcat([ts[0].id] + Ids(ts[0].kids), Ids(ts[1..]));
    }
  }

  lemma NoDupConcat(a: seq<Id>, b: seq<Id>)
    ensures NoDup(a + b) <==> NoDup(a) && NoDup(b) && Elems(a) !! Elems(b)
  {
    var s := a + b;
    assert forall i :: 0 <= i < |a| ==> a[i] == s[i];
    assert forall i :: 0 <= i < |b| ==> b[i] == s[|a| + i];
    if NoDup(a) && NoDup(b) && Elems(a) !! Elems(b) {
      forall i, j | 0 <= i < j < |s| ensures s[i] != s[j] {
        assert i < |a| <= j ==> s[i] in Elems(a) && s[j] in Elems(b);
      }
    }
    if NoDup(s) {
      forall x | x in Elems(a) ensures x !in Elems(b) {
        var i :| 0 <= i < |a| && a[i] == x;
        assert forall j {:trigger b[j]} :: 0 <= j < |b| ==> s[i] != b[j];
      }
    }
  }

  lemma {:induction false} DistinctIsNoDup(ts: seq<Tree>)
    ensures Distinct(ts) <==> NoDup(Ids(ts))
  {
    if ts != [] {
      var t, rest := ts[0], ts[1..];
      DistinctIsNoDup(t.kids);
      DistinctIsNoDup(rest);
      NodesAreIds(t.kids);
      NodesAreIds(rest);
      NoDupConcat([t.id], Ids(t.kids));
      ElemsConcat([t.id], Ids(t.kids));
      NoDupConcat([t.id] + Ids(t.kids), Ids(rest));
      assert Elems([t.id]) == {t.id};
    }
  }

  /** Forests with the same preorder have the same nodes, begin with the same
      node, and are alike in having no node twice. */
  lemma SamePreorder(a: seq<Tree>, b: seq<Tree>, end: Option<Id>)
    requires Ids(a) == Ids(b)
    ensures Nodes(a) == Nodes(b) && Head(a, end) == Head(b, end)
    ensures Distinct(a) <==> Distinct(b)
  {
    NodesAreIds(a);
    NodesAreIds(b);
    DistinctIsNoDup(a);
    DistinctIsNoDup(b);
    assert a != [] ==> Ids(a)[0] == a[0].id;
    assert b != [] ==> Ids(b)[0] == b[0].id;
  }

  // ---------- chains ----------

  lemma {:induction false} ChainConcat(h: Links, a: seq<Tree>, b: seq<Tree>, par: Option<Id>, end: Option<Id>)
    ensures Chain(h, a + b, par, end) <==> Chain(h, a, par, Head(b, end)) && Chain(h, b, par, end)
  {
    if a == [] {
      assert a + b == b;
    } else {
      assert (a + b)[0] == a[0] && (a + b)[1..] == a[1..] + b;
      ChainConcat(h, a[1..], b, par, end);
    }
  }

  /** A chain depends on the pointers of its own nodes only. */
  lemma {:induction false} ChainFrame(h: Links, g: Links, ts: seq<Tree>, par: Option<Id>, end: Option<Id>)
    requires Chain(h, ts, par, end)
    requires forall x :: x in Nodes(ts) ==> SameAt(h, g, x)
    ensures Chain(g, ts, par, end)
  {
    if ts != [] {
      assert SameAt(h, g, ts[0].id);
      ChainFrame(h, g, ts[0].kids, Some(ts[0].id), None);
      ChainFrame(h, g, ts[1..], par, end);
    }
  }

  /** The last node of a chain may be linked to another end. */
  lemma {:induction false} ChainRelink(h: Links, ts: seq<Tree>, par: Option<Id>, end: Option<Id>, end': Option<Id>)
    requires ts != [] && Distinct(ts) && Chain(h, ts, par, end)
    ensures ts[|ts| - 1].id in Nodes(ts)
    ensures Chain(SetNext(h, ts[|ts| - 1].id, end'), ts, par, end')
  {
    var t := ts[0];
    var g := SetNext(h, ts[|ts| - 1].id, end');
    if |ts| > 1 {
      ChainRelink(h, ts[1..], par, end, end');
    }
    ChainFrame(h, g, t.kids, Some(t.id), None);
  }

  /** A single tree may be given another parent. */
  lemma ChainReparent(h: Links, t: Tree, par: Option<Id>, par': Option<Id>, end: Option<Id>)
    requires Distinct([t]) && Chain(h, [t], par, end)
    ensures Chain(SetParent(h, t.id, par'), [t], par', end)
  {
    ChainFrame(h, SetParent(h, t.id, par'), t.kids, Some(t.id), None);
  }

  // Node x is a child of `base` in one of the trees.
  ghost predicate IsChild(ts: seq<Tree>, x: Id, base: Id) {
    ts != [] &&
    ((ts[0].id == base && exists i :: 0 <= i < |ts[0].kids| && ts[0].kids[i].id == x)
     || IsChild(ts[0].kids, x, base) || IsChild(ts[1..], x, base))
  }

  /** In a chain every node at any depth has the parent pointer of the node whose
      list holds it. */
  lemma {:induction false} ParentsAgree(h: Links, ts: seq<Tree>, par: Option<Id>, end: Option<Id>, x: Id, base: Id)
    requires Chain(h, ts, par, end) && IsChild(ts, x, base)
    ensures Get(h.parent, x) == Some(base)
  {
    var t := ts[0];
    if IsChild(t.kids, x, base) {
      ParentsAgree(h, t.kids, Some(t.id), None, x, base);
    } else if IsChild(ts[1..], x, base) {
      ParentsAgree(h, ts[1..], par, end, x, base);
    } else {
      var i :| 0 <= i < |t.kids| && t.kids[i].id == x;
      TopParent(h, t.kids, Some(t.id), None, i);
    }
  }

  lemma {:induction false} TopParent(h: Links, ts: seq<Tree>, par: Option<Id>, end: Option<Id>, i: nat)
    requires Chain(h, ts, par, end) && i < |ts|
    ensures Get(h.parent, ts[i].id) == par
  {
    if i > 0 {
      TopParent(h, ts[1..], par, end, i - 1);
    }
  }
}
