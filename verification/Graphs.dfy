/** Paths, cycles and rankings of a directed graph. */
module Graphs {

  type Graph<!T> = T -> set<T>

  predicate Step<T>(g: Graph<T>, p: seq<T>, i: nat)
    requires i + 1 < |p|
  {
    p[i + 1] in g(p[i])
  }

  ghost predicate IsPath<T>(g: Graph<T>, p: seq<T>) {
    |p| > 0 && forall i: nat :: i + 1 < |p| ==> Step(g, p, i)
  }

  ghost predicate IsCycle<T>(g: Graph<T>, p: seq<T>) {
    |p| > 1 && IsPath(g, p) && p[0] == p[|p| - 1]
  }

  ghost predicate HasCycle<T(!new)>(g: Graph<T>) {
    exists p :: IsCycle(g, p)
  }

  ghost predicate RankedAbove<T>(g: Graph<T>, rank: map<T, nat>, s: T)
    requires s in rank
  {
    forall t :: t in g(s) ==> t in rank && rank[t] < rank[s]
  }

  /** The ranked nodes lead only to ranked nodes of lower rank. */
  ghost predicate Ranked<T>(g: Graph<T>, rank: map<T, nat>) {
    forall s :: s in rank ==> RankedAbove(g, rank, s)
  }

  lemma ExtendPath<T>(g: Graph<T>, p: seq<T>, s: T)
    requires p != [] ==> IsPath(g, p) && s in g(p[|p| - 1])
    ensures IsPath(g, p + [s])
  {
    forall i: nat | i + 1 < |p + [s]| ensures Step(g, p + [s], i) {
      assert i + 1 < |p| ==> Step(g, p, i);
    }
  }

  lemma PathSuffix<T>(g: Graph<T>, p: seq<T>, k: nat)
    requires IsPath(g, p) && k < |p|
    ensures IsPath(g, p[k..])
  {
    forall i: nat | i + 1 < |p[k..]| ensures Step(g, p[k..], i) {
      assert Step(g, p, k + i);
    }
  }

  lemma {:induction false} RankFallsAlongPath<T>(g: Graph<T>, rank: map<T, nat>, p: seq<T>, i: nat)
    requires Ranked(g, rank) && IsPath(g, p) && p[0] in rank && i < |p|
    ensures p[i] in rank && rank[p[i]] + i <= rank[p[0]]
  {
    if i > 0 {
      RankFallsAlongPath(g, rank, p, i - 1);
      assert Step(g, p, i - 1);
      assert RankedAbove(g, rank, p[i - 1]);
    }
  }

  /** If every node that leads anywhere has a rank, there is no cycle. */
  lemma RankedHasNoCycle<T(!new)>(g: Graph<T>, rank: map<T, nat>)
    requires Ranked(g, rank) && forall s :: s !in rank ==> g(s) == {}
    ensures !HasCycle(g)
  {
    if HasCycle(g) {
      var p :| IsCycle(g, p);
      assert Step(g, p, 0);
      RankFallsAlongPath(g, rank, p, |p| - 1);
    }
  }

  // A number above the ranks of the given nodes.
  ghost function Above<T>(rank: map<T, nat>, s: set<T>): (n: nat)
    requires s <= rank.Keys
    ensures forall t :: t in s ==> rank[t] < n
  {
    if s == {} then 0
    else
      var t :| t in s;
      var m := Above(rank, s - {t});
      if rank[t] < m then m else rank[t] + 1
  }

  // s may be ranked last: all it leads to is ranked already.
  ghost function RankLast<T>(g: Graph<T>, rank: map<T, nat>, s: T): (r: map<T, nat>)
    requires Ranked(g, rank) && g(s) <= rank.Keys && s !in rank
    ensures r.Keys == rank.Keys + {s} && Ranked(g, r)
  {
    var r := rank[s := Above(rank, rank.Keys)];
    RankingLast(g, rank, s, r);
    r
  }

  lemma RankingLast<T>(g: Graph<T>, rank: map<T, nat>, s: T, r: map<T, nat>)
    requires Ranked(g, rank) && g(s) <= rank.Keys && s !in rank
    requires r == rank[s := Above(rank, rank.Keys)]
    ensures Ranked(g, r)
  {
    forall t | t in r ensures RankedAbove(g, r, t) {
      if t != s {
        assert RankedAbove(g, rank, t);
      }
    }
  }
}
