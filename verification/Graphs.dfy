/** Dependency graphs, reachability and strongly connected components. */
module Graphs {
  import opened Ids

  /** Out-edges per vertex. A listed vertex that is not a key is absent. */
  type Graph = map<InstanceID, seq<InstanceID>>

  predicate Edge(g: Graph, u: InstanceID, w: InstanceID) {
    u in g && w in g && w in g[u]
  }

  /** p lists the vertices after u on a walk from u to w. */
  ghost predicate IsPath(g: Graph, u: InstanceID, w: InstanceID, p: seq<InstanceID>)
    decreases |p|
  {
    if p == [] then u == w else Edge(g, u, p[0]) && IsPath(g, p[0], w, p[1..])
  }

  ghost predicate Reach(g: Graph, u: InstanceID, w: InstanceID) {
    exists p :: IsPath(g, u, w, p)
  }

  ghost predicate Mutual(g: Graph, u: InstanceID, w: InstanceID) {
    Reach(g, u, w) && Reach(g, w, u)
  }

  lemma ReachRefl(g: Graph, u: InstanceID)
    ensures Reach(g, u, u)
  {
    assert IsPath(g, u, u, []);
  }

  lemma ReachStep(g: Graph, u: InstanceID, v: InstanceID, w: InstanceID)
    requires Edge(g, u, v) && Reach(g, v, w)
    ensures Reach(g, u, w)
  {
    var p :| IsPath(g, v, w, p);
    assert ([v] + p)[1..] == p;
    assert IsPath(g, u, w, [v] + p);
  }

  lemma ReachEdge(g: Graph, u: InstanceID, w: InstanceID)
    requires Edge(g, u, w)
    ensures Reach(g, u, w)
  {
    ReachRefl(g, w);
    ReachStep(g, u, w, w);
  }

  lemma {:induction false} PathThenReach(g: Graph, u: InstanceID, v: InstanceID, w: InstanceID, p: seq<InstanceID>)
    requires IsPath(g, u, v, p) && Reach(g, v, w)
    ensures Reach(g, u, w)
    decreases |p|
  {
    if p != [] {
      PathThenReach(g, p[0], v, w, p[1..]);
      ReachStep(g, u, p[0], w);
    }
  }

  lemma ReachTrans(g: Graph, u: InstanceID, v: InstanceID, w: InstanceID)
    requires Reach(g, u, v) && Reach(g, v, w)
    ensures Reach(g, u, w)
  {
    var p :| IsPath(g, u, v, p);
    PathThenReach(g, u, v, w, p);
  }

  /** Everything reachable from a vertex of an edge-closed set is in that set. */
  ghost predicate Closed(g: Graph, s: set<InstanceID>) {
    forall u, w :: u in s && Edge(g, u, w) ==> w in s
  }

  lemma {:induction false} PathStaysInClosed(g: Graph, s: set<InstanceID>, u: InstanceID, w: InstanceID, p: seq<InstanceID>)
    requires Closed(g, s) && u in s && IsPath(g, u, w, p)
    ensures w in s
    decreases |p|
  {
    if p != [] {
      PathStaysInClosed(g, s, p[0], w, p[1..]);
    }
  }

  lemma ReachStaysInClosed(g: Graph, s: set<InstanceID>, u: InstanceID, w: InstanceID)
    requires Closed(g, s) && u in s && Reach(g, u, w)
    ensures w in s
  {
    var p :| IsPath(g, u, w, p);
    PathStaysInClosed(g, s, u, w, p);
  }

  lemma {:induction false} SubsetIsNoLarger(a: set<InstanceID>, b: set<InstanceID>)
    requires a <= b
    ensures |a| <= |b|
  {
    if a != {} {
      var x :| x in a;
      SubsetIsNoLarger(a - {x}, b - {x});
    }
  }

  ghost predicate Distinct(s: seq<InstanceID>) {
    forall i, j :: 0 <= i < j < |s| ==> s[i] != s[j]
  }

  function Elements(s: seq<InstanceID>): set<InstanceID> {
    set x | x in s
  }

  predicate SameMembers(a: seq<InstanceID>, b: seq<InstanceID>) {
    (forall x :: x in a ==> x in b) && (forall x :: x in b ==> x in a)
  }

  /** c is exactly one strongly connected component of g, each member once. */
  ghost predicate IsComponent(g: Graph, c: seq<InstanceID>) {
    && |c| > 0
    && Distinct(c)
    && (forall x :: x in c ==> x in g)
    && (forall x, y :: x in c ==> (y in c <==> y in g && Mutual(g, x, y)))
  }

  function Vertices(comps: seq<seq<InstanceID>>): set<InstanceID> {
    set i, x | 0 <= i < |comps| && x in comps[i] :: x
  }

  ghost predicate DisjointComponents(comps: seq<seq<InstanceID>>) {
    forall i, j, x :: 0 <= i < j < |comps| && x in comps[i] ==> x !in comps[j]
  }

  ghost predicate InFirst(comps: seq<seq<InstanceID>>, n: nat, x: InstanceID) {
    exists j :: 0 <= j < n && j < |comps| && x in comps[j]
  }

  /** Every edge leaving comps[i] ends in comps[j] for some j <= i. */
  ghost predicate EdgesPointBack(g: Graph, comps: seq<seq<InstanceID>>) {
    forall i, x, y :: 0 <= i < |comps| && x in comps[i] && Edge(g, x, y) ==> InFirst(comps, i + 1, y)
  }

  /** The strongly connected components of g, each once, in reverse topological order. */
  ghost predicate IsReverseTopological(g: Graph, comps: seq<seq<InstanceID>>) {
    && Vertices(comps) == g.Keys
    && DisjointComponents(comps)
    && (forall i :: 0 <= i < |comps| ==> IsComponent(g, comps[i]))
    && EdgesPointBack(g, comps)
  }
}
