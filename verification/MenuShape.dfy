/** Which tree menu_finalize makes of a parsed one: entries are grouped below
    symbols, then lists without a prompt are given up. */
module MenuShape {
  import opened Options
  import opened Sequences
  import opened Exprs
  import opened MenuLinks
  import opened MenuMoves
  import opened Menus

  // ---------- flattening ----------

  /** A list of trees after the flattening loop. */
  function Flat(e: Entries, ts: seq<Tree>): seq<Tree> {
    if ts == [] then []
    else if ts[0].id in e.prompt then [ts[0]] + Flat(e, ts[1..])
    else [Node(ts[0].id, [])] + Flat(e, ts[0].kids) + Flat(e, ts[1..])
  }

  lemma {:induction false} FlatConcat(e: Entries, a: seq<Tree>, b: seq<Tree>)
    ensures Flat(e, a + b) == Flat(e, a) + Flat(e, b)
  {
    if a == [] {
      assert a + b == b;
    } else {
      assert (a + b)[0] == a[0] && (a + b)[1..] == a[1..] + b;
      FlatConcat(e, a[1..], b);
    }
  }

  // No node on top has a list without having a prompt.
  predicate TopsQuiet(e: Entries, ts: seq<Tree>) {
    forall i :: 0 <= i < |ts| && ts[i].kids != [] ==> ts[i].id in e.prompt
  }

  /** Afterwards no node has a list without having a prompt, and no top is lost. */
  lemma {:induction false} FlatIsQuiet(e: Entries, ts: seq<Tree>)
    ensures TopsQuiet(e, Flat(e, ts)) && Tops(ts) <= Tops(Flat(e, ts))
  {
    if ts != [] {
      FlatIsQuiet(e, ts[0].kids);
      FlatIsQuiet(e, ts[1..]);
      FlatParts(e, ts);
      TopsConcat([ts[0]], ts[1..]);
      assert ts == [ts[0]] + ts[1..];
    }
  }

  lemma FlatParts(e: Entries, ts: seq<Tree>)
    requires ts != []
    ensures var t, f := ts[0], Flat(e, ts);
      && Tops(Flat(e, ts[1..])) <= Tops(f) && t.id in Tops(f)
      && (t.id !in e.prompt ==> Tops(Flat(e, t.kids)) <= Tops(f))
  {
    var t, more := ts[0], Flat(e, ts[1..]);
    TopsConcat(if t.id in e.prompt then [t] else [Node(t.id, [])] + Flat(e, t.kids), more);
    TopsConcat([Node(t.id, [])], Flat(e, t.kids));
    assert [t][0] == t && [Node(t.id, [])][0].id == t.id;
  }

  /** A node with a prompt keeps exactly its list; one without gives it up to the
      list it is in. */
  lemma {:induction false} FlatMeans(e: Entries, ts: seq<Tree>, t: Tree)
    requires t in ts
    ensures t.id in e.prompt ==> t in Flat(e, ts)
    ensures t.id !in e.prompt ==> Node(t.id, []) in Flat(e, ts) && Tops(t.kids) <= Tops(Flat(e, ts))
    ensures t.id !in e.prompt ==> forall k :: k in t.kids && k.id in e.prompt ==> k in Flat(e, ts)
    decreases ts
  {
    FlatParts(e, ts);
    if t != ts[0] {
      FlatMeans(e, ts[1..], t);
    } else if t.id !in e.prompt {
      FlatIsQuiet(e, t.kids);
      forall k | k in t.kids && k.id in e.prompt ensures k in Flat(e, ts) {
        FlatMeans(e, t.kids, k);
      }
    }
  }

  lemma TopsConcat(a: seq<Tree>, b: seq<Tree>)
    ensures Tops(a + b) == Tops(a) + Tops(b)
  {
    forall i | 0 <= i < |a| ensures a[i].id in Tops(a + b) {
      assert (a + b)[i] == a[i];
    }
    forall i | 0 <= i < |b| ensures b[i].id in Tops(a + b) {
      assert (a + b)[|a| + i] == b[i];
    }
  }

  /** The same at every depth. */
  function Hoist(e: Entries, ts: seq<Tree>): seq<Tree> {
    if ts == [] then []
    else
      var ks := Hoist(e, ts[0].kids);
      (if ts[0].id in e.prompt then [Node(ts[0].id, ks)] else [Node(ts[0].id, [])] + ks) + Hoist(e, ts[1..])
  }

  // The trees whose inner lists, but not yet their own, are flattened.
  function Topped(e: Entries, ts: seq<Tree>): seq<Tree> {
    if ts == [] then [] else [Node(ts[0].id, Hoist(e, ts[0].kids))] + Topped(e, ts[1..])
  }

  lemma {:induction false} ToppedConcat(e: Entries, a: seq<Tree>, b: seq<Tree>)
    ensures Topped(e, a + b) == Topped(e, a) + Topped(e, b)
  {
    if a == [] {
      assert a + b == b;
    } else {
      assert (a + b)[0] == a[0] && (a + b)[1..] == a[1..] + b;
      ToppedConcat(e, a[1..], b);
    }
  }

  lemma ToppedOne(e: Entries, t: Tree)
    ensures Topped(e, [t]) == [Node(t.id, Hoist(e, t.kids))]
  {
    assert [t][1..] == [];
  }

  lemma {:induction false} ToppedIds(e: Entries, ts: seq<Tree>)
    ensures |Topped(e, ts)| == |ts|
    ensures forall i :: 0 <= i < |ts| ==> Topped(e, ts)[i].id == ts[i].id
  {
    if ts != [] {
      ToppedIds(e, ts[1..]);
      assert forall i :: 0 < i < |ts| ==> ts[i] == ts[1..][i - 1];
    }
  }

  // One round of the loop: the first tree not yet done is t.
  lemma FlatStep(e: Entries, flat: seq<Tree>, t: Tree, rest: seq<Tree>)
    ensures t.id !in e.prompt ==>
      flat + [Node(t.id, [])] + Flat(e, t.kids + rest) == flat + Flat(e, [t] + rest)
    ensures t.id in e.prompt || t.kids == [] ==> flat + [t] + Flat(e, rest) == flat + Flat(e, [t] + rest)
  {
    FlatOfCons(e, t, rest);
    FlatConcat(e, t.kids, rest);
    var first := Node(t.id, []);
    assert t.kids == [] ==> t == first && t.kids + rest == rest;
    hide Flat;
    Regroup(flat, [first], Flat(e, t.kids + rest));
    Regroup(flat, [t], Flat(e, rest));
    Regroup([first], Flat(e, t.kids), Flat(e, rest));
  }

  lemma FlatOfCons(e: Entries, t: Tree, rest: seq<Tree>)
    ensures t.id in e.prompt ==> Flat(e, [t] + rest) == [t] + Flat(e, rest)
    ensures t.id !in e.prompt ==> Flat(e, [t] + rest) == [Node(t.id, [])] + Flat(e, t.kids) + Flat(e, rest)
  {
    assert ([t] + rest)[0] == t && ([t] + rest)[1..] == rest;
  }

  lemma {:induction false} QuietIsFlat(e: Entries, ts: seq<Tree>)
    requires TopsQuiet(e, ts)
    ensures Flat(e, ts) == ts
  {
    if ts != [] {
      assert TopsQuiet(e, ts[1..]) && Flat(e, []) == [] && ts == [ts[0]] + ts[1..];
      FlatOfCons(e, ts[0], ts[1..]);
      hide Flat;
      QuietIsFlat(e, ts[1..]);
      assert ts[0].id !in e.prompt ==> ts[0] == Node(ts[0].id, []);
    }
  }

  lemma {:induction false} HoistIsQuiet(e: Entries, ts: seq<Tree>)
    ensures TopsQuiet(e, Hoist(e, ts))
  {
    if ts != [] {
      HoistIsQuiet(e, ts[0].kids);
      HoistIsQuiet(e, ts[1..]);
    }
  }

  /** Flattening one list after all those inside it flattens at every depth. */
  lemma {:induction false} FlatOfTopped(e: Entries, ts: seq<Tree>)
    ensures Flat(e, Topped(e, ts)) == Hoist(e, ts)
  {
    if ts != [] {
      var t := Node(ts[0].id, Hoist(e, ts[0].kids));
      FlatOfTopped(e, ts[1..]);
      HoistIsQuiet(e, ts[0].kids);
      QuietIsFlat(e, t.kids);
      assert Topped(e, ts)[0] == t && Topped(e, ts)[1..] == Topped(e, ts[1..]);
    }
  }

  // ---------- what flattening does to lists ----------

  // At no depth a node has a list without having a prompt.
  predicate NoIdleLists(e: Entries, ts: seq<Tree>) {
    ts == []
    || ((ts[0].kids != [] ==> ts[0].id in e.prompt) && NoIdleLists(e, ts[0].kids) && NoIdleLists(e, ts[1..]))
  }

  lemma {:induction false} NoIdleConcat(e: Entries, a: seq<Tree>, b: seq<Tree>)
    ensures NoIdleLists(e, a + b) <==> NoIdleLists(e, a) && NoIdleLists(e, b)
  {
    if a == [] {
      assert a + b == b;
    } else {
      assert (a + b)[0] == a[0] && (a + b)[1..] == a[1..] + b;
      NoIdleConcat(e, a[1..], b);
    }
  }

  lemma {:induction false} HoistHasNoIdleLists(e: Entries, ts: seq<Tree>)
    ensures NoIdleLists(e, Hoist(e, ts))
  {
    if ts != [] {
      var t, ks := ts[0], Hoist(e, ts[0].kids);
      HoistHasNoIdleLists(e, t.kids);
      HoistHasNoIdleLists(e, ts[1..]);
      var first := if t.id in e.prompt then [Node(t.id, ks)] else [Node(t.id, [])] + ks;
      NoIdleConcat(e, first, Hoist(e, ts[1..]));
      NoIdleConcat(e, [Node(t.id, [])], ks);
      assert [Node(t.id, ks)][1..] == [] && [Node(t.id, [])][1..] == [] && NoIdleLists(e, []);
    }
  }

  lemma {:induction false} ChildConcat(a: seq<Tree>, b: seq<Tree>, x: Id, y: Id)
    ensures IsChild(a + b, x, y) <==> IsChild(a, x, y) || IsChild(b, x, y)
  {
    if a == [] {
      assert a + b == b;
    } else {
      assert (a + b)[0] == a[0] && (a + b)[1..] == a[1..] + b;
      ChildConcat(a[1..], b, x, y);
    }
  }

  // The children of a single tree are its tops and those inside.
  lemma ChildOfOne(t: Tree, x: Id, y: Id)
    ensures IsChild([t], x, y) <==> (y == t.id && x in Tops(t.kids)) || IsChild(t.kids, x, y)
  {
    assert [t][1..] == [] && !IsChild([], x, y);
  }

  lemma {:induction false} HoistTops(e: Entries, ts: seq<Tree>)
    ensures Tops(ts) <= Tops(Hoist(e, ts))
  {
    if ts != [] {
      HoistTops(e, ts[1..]);
      HoistParts(e, ts);
      TopsConcat([ts[0]], ts[1..]);
      assert ts == [ts[0]] + ts[1..];
    }
  }

  lemma HoistParts(e: Entries, ts: seq<Tree>)
    requires ts != []
    ensures var t, ks, more := ts[0], Hoist(e, ts[0].kids), Hoist(e, ts[1..]);
      && (if t.id in e.prompt then Hoist(e, ts) == [Node(t.id, ks)] + more
          else Hoist(e, ts) == ([Node(t.id, [])] + ks) + more)
      && Tops(more) <= Tops(Hoist(e, ts)) && t.id in Tops(Hoist(e, ts))
      && (t.id !in e.prompt ==> Tops(ks) <= Tops(Hoist(e, ts)))
  {
    var t, ks, more := ts[0], Hoist(e, ts[0].kids), Hoist(e, ts[1..]);
    TopsConcat(if t.id in e.prompt then [Node(t.id, ks)] else [Node(t.id, [])] + ks, more);
    TopsConcat([Node(t.id, [])], ks);
    assert [Node(t.id, [])][0].id == t.id && [Node(t.id, ks)][0].id == t.id;
  }

  // What is inside the parts is inside the whole.
  lemma HoistKeeps(e: Entries, ts: seq<Tree>, x: Id, y: Id)
    requires ts != []
    ensures var t, ks := ts[0], Hoist(e, ts[0].kids);
      && (IsChild(Hoist(e, ts[1..]), x, y) ==> IsChild(Hoist(e, ts), x, y))
      && (IsChild(ks, x, y) ==> IsChild(Hoist(e, ts), x, y))
      && (t.id in e.prompt && y == t.id && x in Tops(ks) ==> IsChild(Hoist(e, ts), x, y))
  {
    var t, ks, more := ts[0], Hoist(e, ts[0].kids), Hoist(e, ts[1..]);
    HoistParts(e, ts);
    ChildConcat([Node(t.id, ks)], more, x, y);
    ChildConcat([Node(t.id, [])] + ks, more, x, y);
    ChildConcat([Node(t.id, [])], ks, x, y);
    ChildOfOne(Node(t.id, ks), x, y);
  }

  /** A child of a node with a prompt stays its child... */
  lemma {:induction false} PromptedKeeps(e: Entries, ts: seq<Tree>, x: Id, y: Id)
    requires IsChild(ts, x, y) && y in e.prompt
    ensures IsChild(Hoist(e, ts), x, y)
  {
    var t := ts[0];
    HoistKeeps(e, ts, x, y);
    if IsChild(t.kids, x, y) {
      PromptedKeeps(e, t.kids, x, y);
    } else if IsChild(ts[1..], x, y) {
      PromptedKeeps(e, ts[1..], x, y);
    } else {
      HoistTops(e, t.kids);
    }
  }

  // x and z are both tops of ks, or have a common parent inside.
  ghost predicate Together(ks: seq<Tree>, x: Id, z: Id) {
    (x in Tops(ks) && z in Tops(ks)) || exists y :: IsChild(ks, x, y) && IsChild(ks, z, y)
  }

  lemma {:induction false} PromptlessGives(e: Entries, ts: seq<Tree>, x: Id, z: Id)
    requires IsChild(ts, x, z) && z !in e.prompt
    ensures Together(Hoist(e, ts), x, z)
    decreases ts
  {
    var t := ts[0];
    HoistParts(e, ts);
    if IsChild(t.kids, x, z) {
      var ks := Hoist(e, t.kids);
      PromptlessGives(e, t.kids, x, z);
      if x in Tops(ks) && z in Tops(ks) {
        HoistKeeps(e, ts, x, t.id);
        HoistKeeps(e, ts, z, t.id);
      } else {
        var y :| IsChild(ks, x, y) && IsChild(ks, z, y);
        HoistKeeps(e, ts, x, y);
        HoistKeeps(e, ts, z, y);
      }
    } else if IsChild(ts[1..], x, z) {
      PromptlessGives(e, ts[1..], x, z);
      if y :| IsChild(Hoist(e, ts[1..]), x, y) && IsChild(Hoist(e, ts[1..]), z, y) {
        HoistKeeps(e, ts, x, y);
        HoistKeeps(e, ts, z, y);
      }
    } else {
      HoistTops(e, t.kids);
    }
  }

  /** ...and one of a node without prompt gets the parent of that node. */
  lemma PromptlessGivesUp(e: Entries, r: Id, ts: seq<Tree>, x: Id, z: Id) returns (y: Id)
    requires IsChild(ts, x, z) && z !in e.prompt
    ensures IsChild([Node(r, Hoist(e, ts))], x, y) && IsChild([Node(r, Hoist(e, ts))], z, y)
  {
    var ks := Hoist(e, ts);
    PromptlessGives(e, ts, x, z);
    if x in Tops(ks) && z in Tops(ks) {
      y := r;
    } else {
      y :| IsChild(ks, x, y) && IsChild(ks, z, y);
    }
    ChildOfOne(Node(r, ks), x, y);
    ChildOfOne(Node(r, ks), z, y);
  }

  // ---------- grouping ----------

  /** Grouping the first of the trees ts takes n of them and gives g: a node with
      a list keeps it, with its trees grouped; a symbol without one takes exactly
      the trees after it that pass its test, up to the first that does not. */
  ghost predicate IsFirst(r: Rules, e: Entries, c: Conds, ts: seq<Tree>, g: Tree, n: nat)
    decreases g, 0
  {
    && 1 <= n <= |ts| && g.id == ts[0].id
    && if ts[0].kids != [] then n == 1 && AreGroups(r, e, c, ts[0].kids, g.kids, |ts[0].kids|)
       else if g.id in e.sym then
         && AreGroups(r, e, c, ts[1..], g.kids, n - 1)
         && (forall i :: 0 <= i < |g.kids| ==> Joins(r, e, c, g.id, g.kids[i].id))
         && (n < |ts| ==> !Joins(r, e, c, g.id, ts[n].id))
       else n == 1 && g.kids == []
  }

  /** One after the other, the first n of the trees ts give the groups gs. */
  ghost predicate AreGroups(r: Rules, e: Entries, c: Conds, ts: seq<Tree>, gs: seq<Tree>, n: nat)
    decreases gs, 1
  {
    if gs == [] then n == 0 && n <= |ts|
    else exists m: nat :: m <= n <= |ts| && IsFirst(r, e, c, ts, gs[0], m) && AreGroups(r, e, c, ts[m..], gs[1..], n - m)
  }

  lemma {:induction false} OneMoreGroup(r: Rules, e: Entries, c: Conds, ts: seq<Tree>, gs: seq<Tree>, n: nat,
                                        g: Tree, k: nat)
    requires AreGroups(r, e, c, ts, gs, n) && n <= |ts| && IsFirst(r, e, c, ts[n..], g, k)
    ensures n + k <= |ts| && AreGroups(r, e, c, ts, gs + [g], n + k)
    decreases |gs|
  {
    hide IsFirst, AreGroups;
    FirstFits(r, e, c, ts[n..], g, k);
    if gs == [] {
      OneGroup(r, e, c, ts, gs, n, g, k);
    } else {
      var m := FirstOfGroups(r, e, c, ts, gs, n);
      RestOfRest(ts, m, n);
      var more := gs[1..] + [g];
      OneMoreGroup(r, e, c, ts[m..], gs[1..], n - m, g, k);
      ConsGroups(r, e, c, ts, gs[0], more, m, n + k);
      assert gs + [g] == [gs[0]] + more by { SeqFirst(gs, g); }
    }
  }

  lemma SeqFirst(gs: seq<Tree>, g: Tree)
    requires gs != []
    ensures gs + [g] == [gs[0]] + (gs[1..] + [g])
  {}

  lemma FirstFits(r: Rules, e: Entries, c: Conds, ts: seq<Tree>, g: Tree, k: nat)
    requires IsFirst(r, e, c, ts, g, k)
    ensures 1 <= k <= |ts|
  {}

  lemma OneGroup(r: Rules, e: Entries, c: Conds, ts: seq<Tree>, gs: seq<Tree>, n: nat, g: Tree, k: nat)
    requires gs == [] && AreGroups(r, e, c, ts, gs, n) && n <= |ts| && IsFirst(r, e, c, ts[n..], g, k) && n + k <= |ts|
    ensures AreGroups(r, e, c, ts, gs + [g], n + k)
  {
    assert n == 0;
    hide IsFirst;
    assert ts[0..] == ts && gs + [g] == [g] + [];
    NoGroups(r, e, c, ts[k..]);
    hide AreGroups;
    ConsGroups(r, e, c, ts, g, [], k, k);
  }

  lemma RestOfRest(ts: seq<Tree>, m: nat, n: nat)
    requires m <= n <= |ts|
    ensures ts[m..][n - m..] == ts[n..]
  {}

  lemma FirstOfGroups(r: Rules, e: Entries, c: Conds, ts: seq<Tree>, gs: seq<Tree>, n: nat) returns (m: nat)
    requires AreGroups(r, e, c, ts, gs, n) && gs != []
    ensures m <= n <= |ts| && IsFirst(r, e, c, ts, gs[0], m) && AreGroups(r, e, c, ts[m..], gs[1..], n - m)
  {
    m :| m <= n <= |ts| && IsFirst(r, e, c, ts, gs[0], m) && AreGroups(r, e, c, ts[m..], gs[1..], n - m);
  }

  lemma SplitSlice(ts: seq<Tree>, m: nat, n: nat)
    requires m <= n <= |ts|
    ensures ts[..m] + ts[m..][..n - m] == ts[..n]
  {}

  lemma EmptyGroups(r: Rules, e: Entries, c: Conds, d: Conds, ts: seq<Tree>, gs: seq<Tree>, n: nat)
    requires gs == [] && AreGroups(r, e, c, ts, gs, n)
    ensures n == 0 && AreGroups(r, e, d, ts, gs, n)
  {}

  lemma NoGroups(r: Rules, e: Entries, c: Conds, ts: seq<Tree>)
    ensures AreGroups(r, e, c, ts, [], 0)
  {}

  lemma ConsGroups(r: Rules, e: Entries, c: Conds, ts: seq<Tree>, g: Tree, gs: seq<Tree>, m: nat, n: nat)
    requires m <= n <= |ts| && IsFirst(r, e, c, ts, g, m) && AreGroups(r, e, c, ts[m..], gs, n - m)
    ensures AreGroups(r, e, c, ts, [g] + gs, n)
  {
    assert ([g] + gs)[0] == g && ([g] + gs)[1..] == gs;
  }

  // The nodes whose conditions are read when the first n trees are grouped.
  function ReadNodes(ts: seq<Tree>, n: nat): set<Id>
    requires n <= |ts|
  {
    Tops(ts) + Inner(ts[..n])
  }

  lemma {:induction false} FirstFrame(r: Rules, e: Entries, c: Conds, d: Conds, ts: seq<Tree>, g: Tree, n: nat)
    requires IsFirst(r, e, c, ts, g, n) && forall x :: x in ReadNodes(ts, n) ==> SameCond(e, c, d, x)
    requires e.Valid()
    ensures IsFirst(r, e, d, ts, g, n)
    decreases g, 0
  {
    hide Joins, SameCond, Inner, AreGroups;
    var t := ts[0];
    assert t.id in Tops(ts);
    ReadOfFirst(ts, n);
    if t.kids != [] {
      TopsAndInner(t.kids);
      assert t.kids[..|t.kids|] == t.kids;
      GroupsFrame(r, e, c, d, t.kids, g.kids, |t.kids|);
    } else if g.id in e.sym {
      GroupsFrame(r, e, c, d, ts[1..], g.kids, n - 1);
      forall i | 0 <= i < |g.kids| ensures Joins(r, e, d, g.id, g.kids[i].id) {
        GroupTops(r, e, c, ts[1..], g.kids, n - 1, i);
        SameTest(r, e, c, d, g.id, g.kids[i].id);
      }
      if n < |ts| {
        assert ts[n].id in Tops(ts);
        SameTest(r, e, c, d, g.id, ts[n].id);
      }
    }
  }

  lemma {:induction false} GroupsFrame(r: Rules, e: Entries, c: Conds, d: Conds, ts: seq<Tree>, gs: seq<Tree>, n: nat)
    requires n <= |ts| && AreGroups(r, e, c, ts, gs, n) && forall x :: x in ReadNodes(ts, n) ==> SameCond(e, c, d, x)
    requires e.Valid()
    ensures AreGroups(r, e, d, ts, gs, n)
    decreases gs, 1
  {
    hide IsFirst, AreGroups, SameCond, ReadNodes;
    if gs == [] {
      EmptyGroups(r, e, c, d, ts, gs, n);
    } else {
      var m := FirstOfGroups(r, e, c, ts, gs, n);
      ReadOfRest(ts, m, n);
      FirstFrame(r, e, c, d, ts, gs[0], m);
      GroupsFrame(r, e, c, d, ts[m..], gs[1..], n - m);
      assert [gs[0]] + gs[1..] == gs;
      ConsGroups(r, e, d, ts, gs[0], gs[1..], m, n);
    }
  }

  lemma SameTest(r: Rules, e: Entries, c: Conds, d: Conds, p: Id, x: Id)
    requires e.Valid() && SameCond(e, c, d, p) && SameCond(e, c, d, x)
    ensures Joins(r, e, c, p, x) == Joins(r, e, d, p, x)
  {
    assert e.ValidEntry(p) && e.ValidEntry(x);
  }

  lemma ReadOfFirst(ts: seq<Tree>, n: nat)
    requires 1 <= n <= |ts|
    ensures Nodes(ts[0].kids) <= ReadNodes(ts, n) && ReadNodes(ts[1..], n - 1) <= ReadNodes(ts, n)
  {
    assert ts[..n][0] == ts[0] && ts[..n][1..] == ts[1..][..n - 1];
    TopsOfRest(ts, 1);
  }

  lemma ReadOfRest(ts: seq<Tree>, m: nat, n: nat)
    requires m <= n <= |ts|
    ensures ReadNodes(ts, m) <= ReadNodes(ts, n) && ReadNodes(ts[m..], n - m) <= ReadNodes(ts, n)
  {
    assert ts[..n] == ts[..m] + ts[m..n] && ts[m..][..n - m] == ts[m..n];
    InnerConcat(ts[..m], ts[m..n]);
    TopsOfRest(ts, m);
  }

  lemma TopsOfRest(ts: seq<Tree>, m: nat)
    requires m <= |ts|
    ensures Tops(ts[m..]) <= Tops(ts)
  {
    forall i | 0 <= i < |ts| - m ensures ts[m..][i].id in Tops(ts) {
      assert ts[m..][i] == ts[m + i];
    }
  }

  // The groups stand for trees of the list.
  lemma {:induction false} GroupTops(r: Rules, e: Entries, c: Conds, ts: seq<Tree>, gs: seq<Tree>, n: nat, i: nat)
    requires AreGroups(r, e, c, ts, gs, n) && i < |gs|
    ensures gs[i].id in Tops(ts)
    decreases gs
  {
    var m := FirstOfGroups(r, e, c, ts, gs, n);
    assert ts[0].id in Tops(ts);
    if i > 0 {
      GroupTops(r, e, c, ts[m..], gs[1..], n - m, i - 1);
      TopsOfRest(ts, m);
    }
  }

  // ---------- what grouping does to parents ----------

  /** A node of a group has its parsed parent, or is below a symbol whose test
      it passes. */
  ghost predicate IsRegrouped(r: Rules, e: Entries, c: Conds, ts: seq<Tree>, x: Id, y: Id) {
    IsChild(ts, x, y) || (y in e.sym && Joins(r, e, c, y, x))
  }

  lemma {:induction false} FirstParents(r: Rules, e: Entries, c: Conds, ts: seq<Tree>, g: Tree, n: nat, x: Id, y: Id)
    requires IsFirst(r, e, c, ts, g, n) && IsChild([g], x, y)
    ensures IsRegrouped(r, e, c, ts, x, y)
    decreases g, 0
  {
    var t := ts[0];
    ChildOfOne(g, x, y);
    if IsChild(g.kids, x, y) {
      if t.kids != [] {
        GroupParents(r, e, c, t.kids, g.kids, |t.kids|, x, y);
      } else if g.id in e.sym {
        GroupParents(r, e, c, ts[1..], g.kids, n - 1, x, y);
      }
    } else if t.kids != [] {
      var i :| 0 <= i < |g.kids| && g.kids[i].id == x;
      GroupTops(r, e, c, t.kids, g.kids, |t.kids|, i);
    }
  }

  lemma {:induction false} GroupParents(r: Rules, e: Entries, c: Conds, ts: seq<Tree>, gs: seq<Tree>, n: nat,
                                        x: Id, y: Id)
    requires AreGroups(r, e, c, ts, gs, n) && IsChild(gs, x, y)
    ensures IsRegrouped(r, e, c, ts, x, y)
    decreases gs, 1
  {
    var m := FirstOfGroups(r, e, c, ts, gs, n);
    ChildOfOne(gs[0], x, y);
    if IsChild([gs[0]], x, y) {
      FirstParents(r, e, c, ts, gs[0], m, x, y);
    } else {
      GroupParents(r, e, c, ts[m..], gs[1..], n - m, x, y);
      ChildConcat(ts[..m], ts[m..], x, y);
      assert ts == ts[..m] + ts[m..];
    }
  }

  // The entry that follows a symbol in its list does not pass the symbol's test.
  predicate NextStaysOut(r: Rules, e: Entries, c: Conds, gs: seq<Tree>) {
    gs == [] ||
    ((|gs| > 1 && gs[0].id in e.sym ==> !Joins(r, e, c, gs[0].id, gs[1].id))
     && NextStaysOut(r, e, c, gs[0].kids) && NextStaysOut(r, e, c, gs[1..]))
  }

  /** No symbol takes fewer entries than it could, at any depth. */
  lemma {:induction false} FirstIsWhole(r: Rules, e: Entries, c: Conds, ts: seq<Tree>, g: Tree, n: nat)
    requires IsFirst(r, e, c, ts, g, n) && SymbolsAreLeaves(e, ts)
    ensures NextStaysOut(r, e, c, g.kids)
    decreases g, 0
  {
    if ts[0].kids != [] {
      GroupsAreWhole(r, e, c, ts[0].kids, g.kids, |ts[0].kids|);
    } else if g.id in e.sym {
      GroupsAreWhole(r, e, c, ts[1..], g.kids, n - 1);
    }
  }

  lemma {:induction false} GroupsAreWhole(r: Rules, e: Entries, c: Conds, ts: seq<Tree>, gs: seq<Tree>, n: nat)
    requires AreGroups(r, e, c, ts, gs, n) && SymbolsAreLeaves(e, ts)
    ensures NextStaysOut(r, e, c, gs)
    decreases gs, 1
  {
    hide IsFirst, AreGroups, SymbolsAreLeaves, Joins;
    if gs != [] {
      var m := FirstOfGroups(r, e, c, ts, gs, n);
      LeavesConcat(e, ts[..m], ts[m..]);
      assert ts == ts[..m] + ts[m..];
      FirstIsWhole(r, e, c, ts, gs[0], m);
      GroupsAreWhole(r, e, c, ts[m..], gs[1..], n - m);
      if |gs| > 1 {
        NextGroup(r, e, c, ts, gs, n, m);
      }
    }
  }

  lemma NextGroup(r: Rules, e: Entries, c: Conds, ts: seq<Tree>, gs: seq<Tree>, n: nat, m: nat)
    requires |gs| > 1 && m <= n <= |ts| && IsFirst(r, e, c, ts, gs[0], m) && AreGroups(r, e, c, ts[m..], gs[1..], n - m)
    requires SymbolsAreLeaves(e, ts)
    ensures gs[0].id in e.sym ==> !Joins(r, e, c, gs[0].id, gs[1].id)
  {
    var k := FirstOfGroups(r, e, c, ts[m..], gs[1..], n - m);
    assert gs[1..][0].id == ts[m..][0].id == ts[m].id;
  }

  /** Grouping keeps the preorder. */
  lemma {:induction false} FirstKeepsPreorder(r: Rules, e: Entries, c: Conds, ts: seq<Tree>, g: Tree, n: nat)
    requires IsFirst(r, e, c, ts, g, n)
    ensures Ids([g]) == Ids(ts[..n])
    decreases g, 0
  {
    var t := ts[0];
    IdsCons(g, []);
    IdsCons(t, ts[1..n]);
    assert [g] + [] == [g] && [t] + ts[1..n] == ts[..n] && Ids([]) == [];
    hide AreGroups, Ids;
    if t.kids != [] {
      GroupsKeepPreorder(r, e, c, t.kids, g.kids, |t.kids|);
      assert t.kids[..|t.kids|] == t.kids && ts[1..n] == [];
    } else if g.id in e.sym {
      GroupsKeepPreorder(r, e, c, ts[1..], g.kids, n - 1);
      assert ts[1..][..n - 1] == ts[1..n];
    } else {
      assert ts[1..n] == [];
    }
  }

  lemma {:induction false} GroupsKeepPreorder(r: Rules, e: Entries, c: Conds, ts: seq<Tree>, gs: seq<Tree>, n: nat)
    requires n <= |ts| && AreGroups(r, e, c, ts, gs, n)
    ensures Ids(gs) == Ids(ts[..n])
    decreases gs, 1
  {
    hide IsFirst, AreGroups, Ids;
    if gs == [] {
      EmptyGroups(r, e, c, c, ts, gs, n);
      assert ts[..n] == [];
    } else {
      var m := FirstOfGroups(r, e, c, ts, gs, n);
      FirstKeepsPreorder(r, e, c, ts, gs[0], m);
      GroupsKeepPreorder(r, e, c, ts[m..], gs[1..], n - m);
      IdsConcat([gs[0]], gs[1..]);
      IdsConcat(ts[..m], ts[m..][..n - m]);
      SplitSlice(ts, m, n);
      assert [gs[0]] + gs[1..] == gs;
    }
  }

  // ---------- the finished tree ----------

  lemma {:induction false} ParentIsIn(ts: seq<Tree>, x: Id, y: Id)
    requires IsChild(ts, x, y)
    ensures y in Nodes(ts)
  {
    if IsChild(ts[0].kids, x, y) {
      ParentIsIn(ts[0].kids, x, y);
    } else if IsChild(ts[1..], x, y) {
      ParentIsIn(ts[1..], x, y);
    }
  }

  lemma {:induction false} NoListInChain(h: Links, e: Entries, ts: seq<Tree>, par: Option<Id>, end: Option<Id>, z: Id)
    requires Chain(h, ts, par, end) && NoIdleLists(e, ts) && z in Nodes(ts) && z !in e.prompt
    ensures Get(h.list, z) == None
  {
    var t := ts[0];
    if z in Nodes(t.kids) {
      NoListInChain(h, e, t.kids, Some(t.id), None, z);
    } else if z in Nodes(ts[1..]) {
      NoListInChain(h, e, ts[1..], par, end, z);
    }
  }

  /** The pointers represent what menu_finalize makes of the tree t: the groups g
      with the lists of nodes without prompt given up. */
  ghost predicate IsFinished(h: Links, r: Rules, e: Entries, c: Conds, t: Tree, g: Tree) {
    && IsFirst(r, e, c, [t], g, 1) && Distinct([t])
    && Chain(h, [Node(t.id, Hoist(e, g.kids))], None, None)
  }

  /** Below the root, a node without prompt has no list. */
  lemma FinishedLists(h: Links, r: Rules, e: Entries, c: Conds, t: Tree, g: Tree, z: Id)
    requires IsFinished(h, r, e, c, t, g) && z in Nodes(Hoist(e, g.kids)) && z !in e.prompt
    ensures Get(h.list, z) == None
  {
    HoistHasNoIdleLists(e, g.kids);
    NoListInChain(h, e, Hoist(e, g.kids), Some(t.id), None, z);
  }

  /** A node grouped below z ends up below z if z has a prompt or is the root, and
      otherwise beside it. Node z is the parsed parent or a symbol whose test the
      node passes. */
  lemma FinishedParents(h: Links, r: Rules, e: Entries, c: Conds, t: Tree, g: Tree, x: Id, z: Id)
    requires IsFinished(h, r, e, c, t, g) && IsChild([g], x, z)
    ensures if z in e.prompt || z == t.id then Get(h.parent, x) == Some(z) else Get(h.parent, x) == Get(h.parent, z)
    ensures IsRegrouped(r, e, c, [t], x, z)
  {
    var ks := Hoist(e, g.kids);
    var top := Node(t.id, ks);
    FirstParents(r, e, c, [t], g, 1, x, z);
    FirstKeepsPreorder(r, e, c, [t], g, 1);
    assert [t][..1] == [t];
    SamePreorder([g], [t], None);
    ChildOfOne(g, x, z);
    ChildOfOne(top, x, z);
    if IsChild(g.kids, x, z) {
      ParentIsIn(g.kids, x, z);
      if z in e.prompt {
        PromptedKeeps(e, g.kids, x, z);
        ParentsAgree(h, [top], None, None, x, z);
      } else {
        var y := PromptlessGivesUp(e, t.id, g.kids, x, z);
        ParentsAgree(h, [top], None, None, x, y);
        ParentsAgree(h, [top], None, None, z, y);
      }
    } else {
      HoistTops(e, g.kids);
      ParentsAgree(h, [top], None, None, x, z);
    }
  }
}
