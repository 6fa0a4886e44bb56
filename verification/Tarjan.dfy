/** Tarjan's algorithm as tarjanConnect runs it. */
module Tarjan {
  import opened Ids
  import opened Graphs

  type Nums = map<InstanceID, int>

  /** The variables strongConnect captures, lowlinks aside. A vertex is visited
      once it has a num; stacked is the set of vertices with that flag. */
  datatype Env = Env(
    counter: int,
    num: Nums,
    stacked: set<InstanceID>,
    stack: seq<InstanceID>,
    output: seq<seq<InstanceID>>)

  // ---------- invariants ----------

  /** Visited vertices are numbered in visiting order; each is on the stack or
      in the output, never both. */
  ghost predicate Shape(g: Graph, e: Env) {
    && e.num.Keys <= g.Keys && e.counter >= 0
    && (forall x :: x in e.num ==> 1 <= e.num[x] <= e.counter)
    && (forall x :: x in e.stacked <==> x in e.stack)
    && (forall i :: 0 <= i < |e.stack| ==> e.stack[i] in e.num)
    && (forall i, j :: 0 <= i < j < |e.stack| ==> e.num[e.stack[i]] < e.num[e.stack[j]])
    && e.num.Keys == e.stacked + Vertices(e.output)
    && e.stacked !! Vertices(e.output)
  }

  /** Only grey vertices, those still being explored, have unvisited successors. */
  ghost predicate NoUnvisited(g: Graph, visited: set<InstanceID>, grey: set<InstanceID>) {
    forall x, y :: x in visited && x !in grey && Edge(g, x, y) ==> y in visited
  }

  predicate NoLater(num: Nums, x: InstanceID, y: InstanceID) {
    x in num && y in num && num[x] <= num[y]
  }

  /** A grey vertex reaches everything stacked after it. */
  ghost predicate GreyReaches(g: Graph, num: Nums, stacked: set<InstanceID>, grey: set<InstanceID>) {
    forall x, y :: x in grey && y in stacked && NoLater(num, x, y) ==> Reach(g, x, y)
  }

  ghost predicate ReachesGrey(g: Graph, num: Nums, grey: set<InstanceID>, y: InstanceID) {
    exists x :: x in grey && NoLater(num, x, y) && Reach(g, y, x)
  }

  /** Every stacked vertex reaches a grey one stacked no later than itself. */
  ghost predicate AllReachGrey(g: Graph, num: Nums, stacked: set<InstanceID>, grey: set<InstanceID>) {
    forall y :: y in stacked ==> ReachesGrey(g, num, grey, y)
  }

  ghost predicate Emitted(g: Graph, output: seq<seq<InstanceID>>) {
    && DisjointComponents(output)
    && (forall i :: 0 <= i < |output| ==> IsComponent(g, output[i]))
    && EdgesPointBack(g, output)
  }

  ghost predicate Inv(g: Graph, e: Env, grey: set<InstanceID>) {
    && Shape(g, e)
    && grey <= e.stacked
    && NoUnvisited(g, e.num.Keys, grey)
    && GreyReaches(g, e.num, e.stacked, grey)
    && AllReachGrey(g, e.num, e.stacked, grey)
    && Emitted(g, e.output)
  }

  // ---------- what one call of strongConnect promises ----------

  /** Nothing already visited is renumbered, and nothing below the entry stack
      height or already emitted is touched. */
  ghost predicate Extends(e: Env, e': Env) {
    && (forall x :: x in e.num ==> x in e'.num && e'.num[x] == e.num[x])
    && e.stack <= e'.stack
    && e.output <= e'.output
  }

  ghost predicate KeepsLow(e: Env, low: Nums, low': Nums) {
    forall x :: x in e.num && x in low ==> x in low' && low'[x] == low[x]
  }

  lemma ExtendsRefl(e: Env)
    ensures Extends(e, e)
  {
  }

  lemma KeepsLowTrans(e: Env, e2: Env, low: Nums, low2: Nums, low3: Nums)
    requires KeepsLow(e, low, low2) && KeepsLow(e2, low2, low3) && Extends(e, e2)
    ensures KeepsLow(e, low, low3)
  {
  }

  ghost predicate LowWitness(g: Graph, e0: Env, v: InstanceID, low: int) {
    exists y :: y in e0.stack && y in e0.num && e0.num[y] == low && Reach(g, v, y)
  }

  /** low is at most the num of every entry-stack vertex the vertices xs point to. */
  ghost predicate Bounds(g: Graph, e0: Env, xs: seq<InstanceID>, low: int) {
    forall x, z :: x in xs && z in e0.stack && z in e0.num && Edge(g, x, z) ==> low <= e0.num[z]
  }

  /** The part of the stack pushed since e0. */
  function Above(e0: Env, e: Env): seq<InstanceID> {
    if |e0.stack| <= |e.stack| then e.stack[|e0.stack|..] else []
  }

  /** The lowlink of v bounds every edge back into the entry stack, and is
      either attained there or marks v as a root that has been popped. */
  ghost predicate LowLink(g: Graph, e0: Env, e: Env, v: InstanceID, low: int) {
    && v in e.num && v !in e0.num && e0.counter < e.num[v]
    && |e0.stack| <= |e.stack|
    && low <= e.num[v]
    && (low == e.num[v] ==> e.stack == e0.stack)
    && (low < e.num[v] ==> LowWitness(g, e0, v, low))
    && Bounds(g, e0, Above(e0, e), low)
  }

  lemma ShapeFacts(g: Graph, e: Env)
    requires Shape(g, e)
    ensures e.stacked <= e.num.Keys
    ensures forall x :: x in e.num ==> e.num[x] <= e.counter
    ensures forall x :: x in e.stack ==> x in e.stacked && x in e.num
  {
  }

  // ---------- entering a vertex ----------

  function Push(e: Env, v: InstanceID): Env {
    Env(e.counter + 1, e.num[v := e.counter + 1], e.stacked + {v}, e.stack + [v], e.output)
  }

  /** State of the scan of v's out list after its first i entries. */
  ghost predicate Scanning(g: Graph, e0: Env, e: Env, v: InstanceID, low: int, i: nat) {
    && v in g && i <= |g[v]|
    && Extends(e0, e)
    && v !in e0.num && v in e.num && e0.counter < e.num[v]
    && |e0.stack| < |e.stack| && e.stack[|e0.stack|] == v
    && low <= e.num[v]
    && (low < e.num[v] ==> LowWitness(g, e0, v, low))
    && Bounds(g, e0, e.stack[|e0.stack| + 1..], low)
    && (forall j :: 0 <= j < i ==> Scanned(g, e0, e, low, g[v][j]))
  }

  ghost predicate ScanComplete(g: Graph, e0: Env, e: Env, v: InstanceID, low: int) {
    v in g && Scanning(g, e0, e, v, low, |g[v]|)
  }

  /** v turned out to be the root of its component. */
  ghost predicate IsRoot(g: Graph, e0: Env, e: Env, v: InstanceID, low: int) {
    ScanComplete(g, e0, e, v, low) && low == e.num[v]
  }

  ghost predicate Scanned(g: Graph, e0: Env, e: Env, low: int, w: InstanceID) {
    w in g ==> w in e.num && (w in e0.stack && w in e0.num ==> low <= e0.num[w])
  }

  lemma PushKeepsShape(g: Graph, e: Env, v: InstanceID)
    requires Shape(g, e) && v in g && v !in e.num
    ensures Shape(g, Push(e, v))
  {
  }

  lemma PushKeepsGreyReaches(g: Graph, e: Env, v: InstanceID, grey: set<InstanceID>)
    requires GreyReaches(g, e.num, e.stacked, grey)
    requires v !in e.num && grey <= e.stacked <= e.num.Keys
    requires forall x :: x in e.num ==> e.num[x] <= e.counter
    requires forall x :: x in grey ==> Reach(g, x, v)
    ensures GreyReaches(g, Push(e, v).num, e.stacked + {v}, grey + {v})
  {
    hide Reach;
    ReachRefl(g, v);
  }

  lemma PushKeepsAllReachGrey(g: Graph, e: Env, v: InstanceID, grey: set<InstanceID>)
    requires AllReachGrey(g, e.num, e.stacked, grey)
    requires v !in e.num
    ensures AllReachGrey(g, Push(e, v).num, e.stacked + {v}, grey + {v})
  {
    hide Reach;
    ReachRefl(g, v);
    var num' := Push(e, v).num;
    assert NoLater(num', v, v);
    forall y | y in e.stacked + {v} ensures ReachesGrey(g, num', grey + {v}, y) {
      if y != v {
        var x :| x in grey && NoLater(e.num, x, y) && Reach(g, y, x);
        assert NoLater(num', x, y);
      }
    }
  }

  lemma PushStartsScan(g: Graph, e: Env, v: InstanceID)
    requires Shape(g, e) && v in g && v !in e.num
    ensures Scanning(g, e, Push(e, v), v, e.counter + 1, 0)
  {
    hide Reach, Vertices, Edge;
  }

  lemma PushKeepsInv(g: Graph, e: Env, v: InstanceID, grey: set<InstanceID>)
    requires Inv(g, e, grey) && v in g && v !in e.num
    requires forall x :: x in grey ==> Reach(g, x, v)
    ensures Inv(g, Push(e, v), grey + {v})
    ensures Scanning(g, e, Push(e, v), v, e.counter + 1, 0)
  {
    hide Reach, Edge, Scanning, Shape, GreyReaches, AllReachGrey, Emitted;
    ShapeFacts(g, e);
    PushKeepsShape(g, e, v);
    PushKeepsGreyReaches(g, e, v, grey);
    PushKeepsAllReachGrey(g, e, v, grey);
    PushStartsScan(g, e, v);
  }

  // ---------- scanning the out list ----------

  /** Stack positions below v are exactly those with a smaller num. */
  lemma BelowIsEntryStack(g: Graph, e0: Env, e: Env, v: InstanceID, y: InstanceID)
    requires Shape(g, e0) && Shape(g, e) && Extends(e0, e)
    requires |e0.stack| < |e.stack| && e.stack[|e0.stack|] == v && y in e.stack
    ensures y in e.num && v in e.num
    ensures e.num[y] < e.num[v] <==> y in e0.stack
    ensures y in e0.stack ==> y in e0.num && e0.num[y] == e.num[y]
  {
    hide Reach, Vertices;
    var k :| 0 <= k < |e.stack| && e.stack[k] == y;
    if k < |e0.stack| {
      assert e0.stack[k] == y;
    }
  }

  lemma ScanNoChange(g: Graph, e0: Env, e: Env, v: InstanceID, low: int, i: nat)
    requires v in g && i < |g[v]| && Scanning(g, e0, e, v, low, i)
    requires Scanned(g, e0, e, low, g[v][i])
    ensures Scanning(g, e0, e, v, low, i + 1)
  {
    hide Reach, Edge, LowWitness, Bounds, Scanned;
  }

  lemma ScanLowered(g: Graph, e0: Env, e: Env, v: InstanceID, low: int, i: nat, y: InstanceID)
    requires Scanning(g, e0, e, v, low, i)
    requires y in e0.stack && y in e0.num && e0.num[y] < low && Reach(g, v, y)
    ensures Scanning(g, e0, e, v, e0.num[y], i)
  {
    hide Reach, Edge;
    assert LowWitness(g, e0, v, e0.num[y]);
  }

  /** Scanning survives a completed call of strongConnect on an out vertex. */
  lemma ScanAcrossCall(g: Graph, e0: Env, e: Env, e2: Env, v: InstanceID, low: int, i: nat, w: InstanceID, wlow: int)
    requires Scanning(g, e0, e, v, low, i)
    requires Shape(g, e0) && Extends(e, e2)
    requires LowLink(g, e, e2, w, wlow) && low <= wlow
    ensures Scanning(g, e0, e2, v, low, i)
  {
    hide Reach, Edge, LowWitness, Vertices;
    var n := |e0.stack|;
    assert Bounds(g, e0, e2.stack[n + 1..], low) by {
      forall x | x in e2.stack[n + 1..] ensures x in e.stack[n + 1..] || x in e2.stack[|e.stack|..] {
        var k :| 0 <= k < |e2.stack[n + 1..]| && e2.stack[n + 1..][k] == x;
        if n + 1 + k < |e.stack| {
          assert e.stack[n + 1..][k] == x;
        } else {
          assert e2.stack[|e.stack|..][n + 1 + k - |e.stack|] == x;
        }
      }
      assert forall z :: z in e0.stack ==> z in e.stack;
    }
  }

  /** An edge from v to a stacked vertex w. */
  lemma ScanBackEdge(g: Graph, e0: Env, e: Env, v: InstanceID, low: int, i: nat)
    requires v in g && i < |g[v]| && Scanning(g, e0, e, v, low, i) && g[v][i] in e.stacked
    requires Shape(g, e0) && Shape(g, e)
    ensures g[v][i] in e.num
    ensures Scanning(g, e0, e, v, if e.num[g[v][i]] < low then e.num[g[v][i]] else low, i + 1)
  {
    hide Reach, Scanning, Vertices;
    var w := g[v][i];
    ScanningFacts(g, e0, e, v, low, i);
    ShapeFacts(g, e);
    BelowIsEntryStack(g, e0, e, v, w);
    if e.num[w] < low {
      ReachEdge(g, v, w);
      ScanLowered(g, e0, e, v, low, i, w);
      ScanNoChange(g, e0, e, v, e.num[w], i);
    } else {
      ScanNoChange(g, e0, e, v, low, i);
    }
  }

  lemma ScanningFacts(g: Graph, e0: Env, e: Env, v: InstanceID, low: int, i: nat)
    requires Scanning(g, e0, e, v, low, i)
    ensures Extends(e0, e) && v in g && v !in e0.num && v in e.num && low <= e.num[v]
    ensures |e0.stack| < |e.stack| && e.stack[|e0.stack|] == v
  {
    hide Reach;
  }

  /** An edge from v to a vertex w that strongConnect has just finished. */
  lemma ScanTreeEdge(g: Graph, e0: Env, e: Env, e2: Env, v: InstanceID, low: int, i: nat, wlow: int)
    requires v in g && i < |g[v]| && Scanning(g, e0, e, v, low, i) && g[v][i] in g
    requires Shape(g, e0) && Shape(g, e) && Extends(e, e2)
    requires LowLink(g, e, e2, g[v][i], wlow)
    ensures Scanning(g, e0, e2, v, if wlow < low then wlow else low, i + 1)
  {
    hide Reach, Scanning, Vertices, Bounds;
    var w := g[v][i];
    ScanningFacts(g, e0, e, v, low, i);
    ShapeFacts(g, e);
    var low' := if wlow < low then wlow else low;
    if wlow < low {
      LowReachesEntry(g, e0, e, v, w, wlow);
      var y :| y in e0.stack && y in e0.num && e0.num[y] == wlow && Reach(g, v, y);
      ScanLowered(g, e0, e, v, low, i, y);
    }
    ScanAcrossCall(g, e0, e, e2, v, low', i, w, wlow);
    EntryStackIsVisited(g, e0, e);
    ScanNoChange(g, e0, e2, v, low', i);
  }

  lemma EntryStackIsVisited(g: Graph, e0: Env, e: Env)
    requires Shape(g, e0) && Extends(e0, e)
    ensures forall x :: x in e0.stack ==> x in e.num
  {
    hide Vertices;
  }

  lemma LowReachesEntry(g: Graph, e0: Env, e: Env, v: InstanceID, w: InstanceID, wlow: int)
    requires Shape(g, e0) && Shape(g, e) && Extends(e0, e)
    requires |e0.stack| < |e.stack| && e.stack[|e0.stack|] == v
    requires v in e.num && wlow < e.num[v] && LowWitness(g, e, w, wlow) && Edge(g, v, w)
    ensures LowWitness(g, e0, v, wlow)
  {
    hide Reach, Vertices;
    var y :| y in e.stack && y in e.num && e.num[y] == wlow && Reach(g, w, y);
    ReachStep(g, v, w, y);
    BelowIsEntryStack(g, e0, e, v, y);
  }

  // ---------- leaving a vertex that is not a root ----------

  lemma StayKeepsNoUnvisited(g: Graph, e0: Env, e: Env, v: InstanceID, low: int, grey: set<InstanceID>)
    requires ScanComplete(g, e0, e, v, low)
    requires NoUnvisited(g, e.num.Keys, grey + {v})
    ensures NoUnvisited(g, e.num.Keys, grey)
  {
    hide Reach, LowWitness, Bounds, Extends;
    forall y | Edge(g, v, y) ensures y in e.num {
      var j :| 0 <= j < |g[v]| && g[v][j] == y;
      assert Scanned(g, e0, e, low, g[v][j]);
    }
  }

  /** A vertex below v reaches a grey vertex other than v. */
  lemma ReachesOtherGrey(g: Graph, num: Nums, grey: set<InstanceID>, v: InstanceID, y: InstanceID)
    requires ReachesGrey(g, num, grey + {v}, y)
    requires y in num && v in num && num[y] < num[v]
    ensures ReachesGrey(g, num, grey, y)
  {
  }

  lemma ReachesGreyTrans(g: Graph, num: Nums, grey: set<InstanceID>, x: InstanceID, y: InstanceID)
    requires ReachesGrey(g, num, grey, y) && NoLater(num, y, x) && Reach(g, x, y)
    ensures ReachesGrey(g, num, grey, x)
  {
    hide Reach;
    var z :| z in grey && NoLater(num, z, y) && Reach(g, y, z);
    ReachTrans(g, x, y, z);
    assert NoLater(num, z, x);
  }

  lemma StayKeepsAllReachGrey(g: Graph, e0: Env, e: Env, v: InstanceID, low: int, grey: set<InstanceID>)
    requires Shape(g, e0) && Shape(g, e) && Extends(e0, e)
    requires |e0.stack| < |e.stack| && e.stack[|e0.stack|] == v
    requires v in e.num && low < e.num[v] && LowWitness(g, e0, v, low)
    requires AllReachGrey(g, e.num, e.stacked, grey + {v})
    ensures AllReachGrey(g, e.num, e.stacked, grey)
  {
    hide Reach, Vertices;
    var y0 :| y0 in e0.stack && y0 in e0.num && e0.num[y0] == low && Reach(g, v, y0);
    ShapeFacts(g, e);
    assert y0 in e.stacked;
    ReachesOtherGrey(g, e.num, grey, v, y0);
    ReachesGreyTrans(g, e.num, grey, v, y0);
    forall y | y in e.stacked ensures ReachesGrey(g, e.num, grey, y) {
      var x :| x in grey + {v} && NoLater(e.num, x, y) && Reach(g, y, x);
      if x == v {
        ReachesGreyTrans(g, e.num, grey, y, v);
      }
    }
  }

  lemma StayKeepsInv(g: Graph, e0: Env, e: Env, v: InstanceID, low: int, grey: set<InstanceID>)
    requires Inv(g, e0, grey) && Inv(g, e, grey + {v})
    requires ScanComplete(g, e0, e, v, low) && low != e.num[v]
    ensures Inv(g, e, grey)
    ensures LowLink(g, e0, e, v, low) && Extends(e0, e)
  {
    hide Reach, Edge, Shape, NoUnvisited, AllReachGrey, Emitted, LowWitness;
    StayKeepsNoUnvisited(g, e0, e, v, low, grey);
    StayKeepsAllReachGrey(g, e0, e, v, low, grey);
    assert forall x, y :: x in grey && y in e.stacked && NoLater(e.num, x, y) ==> x in grey + {v};
    ScanBounds(g, e0, e, v, low);
  }

  /** Once the scan is complete, low bounds the edges of v itself too. */
  lemma ScanBounds(g: Graph, e0: Env, e: Env, v: InstanceID, low: int)
    requires ScanComplete(g, e0, e, v, low)
    ensures Bounds(g, e0, Above(e0, e), low)
  {
    hide Reach, LowWitness;
    var n := |e0.stack|;
    assert e.stack[n..] == [v] + e.stack[n + 1..];
    forall z | z in e0.stack && z in e0.num && Edge(g, v, z) ensures low <= e0.num[z] {
      var j :| 0 <= j < |g[v]| && g[v][j] == z;
      assert Scanned(g, e0, e, low, g[v][j]);
    }
  }

  // ---------- leaving a root: its component is popped and emitted ----------

  /** e after its stack has been cut back to that of e0 and component emitted. */
  function Popped(e0: Env, e: Env, component: seq<InstanceID>): Env {
    Env(e.counter, e.num, e.stacked - Elements(component), e0.stack, e.output + [component])
  }

  lemma VerticesAppend(comps: seq<seq<InstanceID>>, c: seq<InstanceID>)
    ensures Vertices(comps + [c]) == Vertices(comps) + Elements(c)
  {
    forall x | x in Vertices(comps) ensures x in Vertices(comps + [c]) {
      var i :| 0 <= i < |comps| && x in comps[i];
      assert (comps + [c])[i] == comps[i];
    }
    forall x | x in c ensures x in Vertices(comps + [c]) {
      assert (comps + [c])[|comps|] == c;
    }
  }

  /** No edge leaves the popped vertices except into components already emitted. */
  lemma PoppedEdge(g: Graph, e0: Env, e: Env, v: InstanceID, low: int, x: InstanceID, y: InstanceID)
    requires Shape(g, e0) && Shape(g, e) && Extends(e0, e)
    requires |e0.stack| < |e.stack| && e.stack[|e0.stack|] == v
    requires v in e.num && low == e.num[v]
    requires Bounds(g, e0, Above(e0, e), low)
    requires x in Above(e0, e) && Edge(g, x, y) && y in e.num
    ensures y in Above(e0, e) || y in Vertices(e.output)
  {
    hide Reach, Vertices;
    if y in e.stack {
      BelowIsEntryStack(g, e0, e, v, y);
      assert e.stack == e0.stack + e.stack[|e0.stack|..];
    }
  }

  lemma EmittedIsClosed(g: Graph, output: seq<seq<InstanceID>>)
    requires EdgesPointBack(g, output)
    ensures Closed(g, Vertices(output))
  {
    hide Edge;
    forall u, w | u in Vertices(output) && Edge(g, u, w) ensures w in Vertices(output) {
      var i :| 0 <= i < |output| && u in output[i];
      assert InFirst(output, i + 1, w);
    }
  }

  /** Every popped vertex is mutually reachable with the root. */
  lemma PoppedReachRoot(g: Graph, e0: Env, e: Env, v: InstanceID, grey: set<InstanceID>, x: InstanceID)
    requires Shape(g, e0) && Shape(g, e) && Extends(e0, e) && grey <= e0.stacked
    requires |e0.stack| < |e.stack| && e.stack[|e0.stack|] == v
    requires GreyReaches(g, e.num, e.stacked, grey + {v})
    requires AllReachGrey(g, e.num, e.stacked, grey + {v})
    requires x in Above(e0, e)
    ensures Mutual(g, v, x)
  {
    hide Reach, Vertices, GreyReaches, AllReachGrey;
    GreyBelow(g, e0, e, v, grey);
    var n := |e0.stack|;
    var k :| 0 <= k < |e.stack[n..]| && e.stack[n..][k] == x;
    assert e.stack[n + k] == x;
    assert v in e.stacked && NoLater(e.num, v, x);
    UpperReachesRoot(g, e.num, e.stacked, v, grey, x);
  }

  lemma UpperReachesRoot(g: Graph, num: Nums, stacked: set<InstanceID>, v: InstanceID, grey: set<InstanceID>, x: InstanceID)
    requires GreyReaches(g, num, stacked, grey + {v})
    requires AllReachGrey(g, num, stacked, grey + {v})
    requires v in stacked && x in stacked && NoLater(num, v, x)
    requires forall z :: z in grey ==> NoLater(num, z, v)
    ensures Mutual(g, v, x)
  {
    hide Reach;
    assert Reach(g, v, x);
    var z :| z in grey + {v} && NoLater(num, z, x) && Reach(g, x, z);
    assert NoLater(num, z, v);
    ReachTrans(g, x, z, v);
  }

  lemma PoppedIsComponent(g: Graph, output: seq<seq<InstanceID>>, v: InstanceID, component: seq<InstanceID>)
    requires v in component && Distinct(component)
    requires forall x :: x in component ==> x in g && x !in Vertices(output) && Mutual(g, v, x)
    requires forall x, y :: x in component && Edge(g, x, y) ==> y in component || y in Vertices(output)
    requires Closed(g, Vertices(output))
    ensures IsComponent(g, component)
  {
    hide Reach, Edge, Vertices;
    var c := Elements(component);
    forall x, y | x in component && y in g && Mutual(g, x, y) ensures y in component {
      ReachStaysInClosed(g, c + Vertices(output), x, y);
      if y in Vertices(output) {
        ReachStaysInClosed(g, Vertices(output), y, x);
        assert false;
      }
    }
    forall x, y | x in component && y in component ensures Mutual(g, x, y) {
      ReachTrans(g, x, v, y);
      ReachTrans(g, y, v, x);
    }
  }

  lemma PopKeepsEmitted(g: Graph, output: seq<seq<InstanceID>>, component: seq<InstanceID>)
    requires Emitted(g, output) && IsComponent(g, component)
    requires forall x :: x in component ==> x !in Vertices(output)
    requires forall x, y :: x in component && Edge(g, x, y) ==> y in component || y in Vertices(output)
    ensures Emitted(g, output + [component])
  {
    hide Reach, Edge, IsComponent;
    var output' := output + [component];
    assert DisjointComponents(output') by {
      forall i, x | 0 <= i < |output| && x in output[i] ensures x !in component {
        assert x in Vertices(output);
      }
    }
    forall i, x, y | 0 <= i < |output'| && x in output'[i] && Edge(g, x, y) ensures InFirst(output', i + 1, y) {
      if i < |output| {
        assert InFirst(output, i + 1, y);
        var j :| 0 <= j < i + 1 && j < |output| && y in output[j];
        assert output'[j] == output[j];
      } else if y in component {
        assert output'[|output|] == component;
      } else {
        var j :| 0 <= j < |output| && y in output[j];
        assert output'[j] == output[j];
      }
    }
  }

  lemma AboveIsNotBelow(g: Graph, e0: Env, e: Env)
    requires Shape(g, e) && e0.stack <= e.stack
    ensures forall x :: x in e0.stack ==> x !in Above(e0, e)
    ensures forall x :: x in e.stack <==> x in e0.stack || x in Above(e0, e)
  {
    hide Vertices;
    assert e.stack == e0.stack + Above(e0, e);
    forall x | x in e0.stack ensures x !in Above(e0, e) {
      var k :| 0 <= k < |e0.stack| && e0.stack[k] == x;
      assert e.stack[k] == x;
      forall j | 0 <= j < |Above(e0, e)| ensures Above(e0, e)[j] != x {
        assert Above(e0, e)[j] == e.stack[|e0.stack| + j];
      }
    }
  }

  lemma PopKeepsShape(g: Graph, e0: Env, e: Env, component: seq<InstanceID>)
    requires Shape(g, e) && e0.stack <= e.stack && SameMembers(component, Above(e0, e))
    ensures Shape(g, Popped(e0, e, component))
  {
    hide Vertices;
    VerticesAppend(e.output, component);
    AboveIsNotBelow(g, e0, e);
  }

  /** What is known about the vertices above the entry stack when v is a root. */
  lemma PoppedFacts(g: Graph, e0: Env, e: Env, v: InstanceID, low: int, grey: set<InstanceID>, component: seq<InstanceID>)
    requires Inv(g, e0, grey) && Inv(g, e, grey + {v}) && IsRoot(g, e0, e, v, low)
    requires Distinct(component) && SameMembers(component, Above(e0, e))
    ensures forall x :: x in component ==> x !in Vertices(e.output)
    ensures forall x, y :: x in component && Edge(g, x, y) ==> y in component || y in Vertices(e.output)
    ensures IsComponent(g, component)
  {
    hide Reach, Edge, NoUnvisited, AllReachGrey, GreyReaches, IsComponent, LowWitness, EdgesPointBack, Vertices;
    assert v == Above(e0, e)[0];
    forall x | x in component ensures x in e.stacked && x in g && x !in Vertices(e.output) {
      assert x in e.stack;
    }
    ScanBounds(g, e0, e, v, low);
    forall x, y | x in component && Edge(g, x, y) ensures y in component || y in Vertices(e.output) {
      VisitedSuccessor(g, e0, e, v, low, grey, x, y);
      PoppedEdge(g, e0, e, v, low, x, y);
    }
    EmittedIsClosed(g, e.output);
    forall x | x in component ensures Mutual(g, v, x) {
      PoppedReachRoot(g, e0, e, v, grey, x);
    }
    PoppedIsComponent(g, e.output, v, component);
  }

  lemma VisitedSuccessor(g: Graph, e0: Env, e: Env, v: InstanceID, low: int, grey: set<InstanceID>, x: InstanceID, y: InstanceID)
    requires ScanComplete(g, e0, e, v, low) && NoUnvisited(g, e.num.Keys, grey + {v})
    requires Shape(g, e0) && Shape(g, e) && grey <= e0.stacked && x in Above(e0, e) && Edge(g, x, y)
    ensures y in e.num
  {
    hide Reach, LowWitness, Bounds, Vertices;
    StayKeepsNoUnvisited(g, e0, e, v, low, grey);
    var k :| 0 <= k < |e.stack[|e0.stack|..]| && e.stack[|e0.stack|..][k] == x;
    assert e.stack[|e0.stack| + k] == x;
    if x in grey {
      BelowIsEntryStack(g, e0, e, v, x);
    }
  }

  lemma GreyBelow(g: Graph, e0: Env, e: Env, v: InstanceID, grey: set<InstanceID>)
    requires Shape(g, e0) && Shape(g, e) && Extends(e0, e) && grey <= e0.stacked
    requires |e0.stack| < |e.stack| && e.stack[|e0.stack|] == v
    ensures forall z :: z in grey ==> NoLater(e.num, z, v)
  {
    hide Vertices;
    forall z | z in grey ensures NoLater(e.num, z, v) {
      assert z in e0.stack;
      BelowIsEntryStack(g, e0, e, v, z);
    }
  }

  lemma PopKeepsGreyLinks(g: Graph, e0: Env, e: Env, v: InstanceID, grey: set<InstanceID>, component: seq<InstanceID>)
    requires Shape(g, e0) && Shape(g, e) && Extends(e0, e)
    requires |e0.stack| < |e.stack| && e.stack[|e0.stack|] == v
    requires GreyReaches(g, e.num, e.stacked, grey + {v})
    requires AllReachGrey(g, e.num, e.stacked, grey + {v})
    requires Shape(g, Popped(e0, e, component))
    ensures GreyReaches(g, e.num, Popped(e0, e, component).stacked, grey)
    ensures AllReachGrey(g, e.num, Popped(e0, e, component).stacked, grey)
  {
    hide Reach, Vertices;
    var s' := Popped(e0, e, component).stacked;
    assert forall x :: x in grey ==> x in grey + {v};
    forall y | y in s' ensures ReachesGrey(g, e.num, grey, y) {
      assert y in e0.stack && y in e.stack;
      BelowIsEntryStack(g, e0, e, v, y);
      ReachesOtherGrey(g, e.num, grey, v, y);
    }
  }

  lemma PopKeepsInv(g: Graph, e0: Env, e: Env, v: InstanceID, low: int, grey: set<InstanceID>, component: seq<InstanceID>)
    requires Inv(g, e0, grey) && Inv(g, e, grey + {v}) && IsRoot(g, e0, e, v, low)
    requires Distinct(component) && SameMembers(component, Above(e0, e))
    ensures Inv(g, Popped(e0, e, component), grey)
    ensures LowLink(g, e0, Popped(e0, e, component), v, low)
    ensures Extends(e0, Popped(e0, e, component))
  {
    hide Reach, Edge, Shape, NoUnvisited, AllReachGrey, GreyReaches, Emitted, IsComponent, LowWitness;
    PoppedFacts(g, e0, e, v, low, grey, component);
    StayKeepsNoUnvisited(g, e0, e, v, low, grey);
    PopKeepsShape(g, e0, e, component);
    PopKeepsEmitted(g, e.output, component);
    PopKeepsGreyLinks(g, e0, e, v, grey, component);
    ShapeFacts(g, e0);
    GreyStaysStacked(g, e0, Popped(e0, e, component), grey);
  }

  lemma GreyStaysStacked(g: Graph, e0: Env, e: Env, grey: set<InstanceID>)
    requires Shape(g, e0) && Shape(g, e) && e.stack == e0.stack && grey <= e0.stacked
    ensures grey <= e.stacked
  {
  }

  // ---------- the algorithm ----------

  lemma GreyReachNext(g: Graph, e0: Env, e: Env, v: InstanceID, grey: set<InstanceID>, w: InstanceID)
    requires Inv(g, e, grey + {v}) && Inv(g, e0, grey) && Extends(e0, e)
    requires |e0.stack| < |e.stack| && e.stack[|e0.stack|] == v && Edge(g, v, w)
    ensures forall x :: x in grey + {v} ==> Reach(g, x, w)
  {
    hide Reach, Edge, NoUnvisited, AllReachGrey, Emitted, Vertices;
    GreyBelow(g, e0, e, v, grey);
    ReachEdge(g, v, w);
    forall x | x in grey + {v} ensures Reach(g, x, w) {
      if x != v {
        assert NoLater(e.num, x, v) && v in e.stacked;
        ReachTrans(g, x, v, w);
      }
    }
  }

  ghost function Unvisited(g: Graph, num: Nums): nat {
    |g.Keys - num.Keys|
  }

  lemma FewerUnvisited(g: Graph, e: Env, e': Env, v: InstanceID)
    requires Extends(e, e') && v in g && v in e'.num && v !in e.num
    ensures Unvisited(g, e'.num) < Unvisited(g, e.num)
  {
    assert g.Keys - e'.num.Keys <= (g.Keys - e.num.Keys) - {v};
    SubsetIsNoLarger(g.Keys - e'.num.Keys, (g.Keys - e.num.Keys) - {v});
  }

  lemma StackIsDistinct(g: Graph, e: Env)
    requires Shape(g, e)
    ensures Distinct(e.stack)
  {
    hide Vertices;
  }

  /** The closure strongConnect and the variables it captures. A vertex record's
      index, lowlink, stacked and visited fields are kept in maps by vertex id. */
  class Connector {
    const graph: Graph
    var counter: int
    var index: Nums
    var lowlink: Nums
    var stacked: set<InstanceID>
    var stack: seq<InstanceID>
    var output: seq<seq<InstanceID>>

    constructor (graphMap: Graph)
      ensures graph == graphMap
      ensures View() == Env(0, map[], {}, [], []) && lowlink == map[]
    {
      graph := graphMap;
      counter, index, lowlink := 0, map[], map[];
      stacked, stack, output := {}, [], [];
    }

    function View(): Env
      reads this
    {
      Env(counter, index, stacked, stack, output)
    }

    ghost predicate Valid(grey: set<InstanceID>)
      reads this
    {
      Inv(graph, View(), grey) && index.Keys == lowlink.Keys
    }

    /** The out list of v has been looked at up to its i-th entry. */
    ghost predicate Scan(e0: Env, v: InstanceID, i: nat)
      reads this
    {
      v in lowlink && Scanning(graph, e0, View(), v, lowlink[v], i)
    }

    ghost predicate Finished(e0: Env, v: InstanceID)
      reads this
    {
      Extends(e0, View()) && v in lowlink && LowLink(graph, e0, View(), v, lowlink[v])
    }

    method PopComponent(v: InstanceID, ghost n: nat) returns (component: seq<InstanceID>)
      requires n < |stack| && stack[n] == v && Distinct(stack)
      modifies this`stack, this`stacked
      ensures stack == old(stack)[..n]
      ensures Distinct(component) && SameMembers(component, old(stack)[n..])
      ensures stacked == old(stacked) - Elements(component)
    {
      ghost var s := stack;
      component := [];
      var i := |stack| - 1;
      var done := false;
      while !done
        invariant n - 1 <= i < |s| && (done <==> i == n - 1)
        invariant stack == s[..i + 1]
        invariant |component| == |s| - 1 - i
        invariant forall k :: 0 <= k < |component| ==> component[k] == s[|s| - 1 - k]
        invariant stacked == old(stacked) - Elements(component)
        decreases i
      {
        var w := stack[i];
        stack := stack[..i];
        stacked := stacked - {w};
        component := component + [w];
        i := i - 1;
        done := v == w;
      }
      forall x | x in s[n..] ensures x in component {
        var k :| 0 <= k < |s[n..]| && s[n..][k] == x;
        assert component[|s| - 1 - n - k] == x;
      }
      forall x | x in component ensures x in s[n..] {
        var k :| 0 <= k < |component| && component[k] == x;
        assert s[n..][|s| - 1 - k - n] == x;
      }
    }

    /** Numbers v and pushes it. */
    method Enter(v: InstanceID, ghost grey: set<InstanceID>)
      requires Valid(grey) && v in graph && v !in index
      requires forall x :: x in grey ==> Reach(graph, x, v)
      modifies this
      ensures Valid(grey + {v}) && Scan(old(View()), v, 0)
      ensures KeepsLow(old(View()), old(lowlink), lowlink)
    {
      hide Inv, Scanning, Reach;
      ghost var e0 := View();
      counter := counter + 1;
      index := index[v := counter];
      lowlink := lowlink[v := counter];
      stacked := stacked + {v};
      stack := stack + [v];
      PushKeepsInv(graph, e0, v, grey);
      assert View() == Push(e0, v);
    }

    /** An out vertex that has not been visited yet. */
    method Descend(v: InstanceID, i: nat, ghost e0: Env, ghost grey: set<InstanceID>)
      requires Valid(grey + {v}) && Inv(graph, e0, grey) && Scan(e0, v, i)
      requires v in graph && i < |graph[v]| && graph[v][i] in graph && graph[v][i] !in index
      modifies this
      ensures Valid(grey + {v}) && Scan(e0, v, i + 1)
      ensures KeepsLow(e0, old(lowlink), lowlink)
      decreases Unvisited(graph, e0.num), 0
    {
      hide Shape, NoUnvisited, GreyReaches, AllReachGrey, Emitted, LowLink, Scanning, Reach, Unvisited;
      ghost var e := View();
      var w := graph[v][i];
      ScanningFacts(graph, e0, e, v, lowlink[v], i);
      GreyReachNext(graph, e0, e, v, grey, w);
      FewerUnvisited(graph, e0, e, v);
      StrongConnect(w, grey + {v});
      ScanTreeEdge(graph, e0, e, View(), v, lowlink[v], i, lowlink[w]);
      if lowlink[w] < lowlink[v] {
        lowlink := lowlink[v := lowlink[w]];
      }
    }

    /** The body of the loop over the out vertices of v. */
    method LookAt(v: InstanceID, i: nat, ghost e0: Env, ghost grey: set<InstanceID>)
      requires Valid(grey + {v}) && Inv(graph, e0, grey) && Scan(e0, v, i)
      requires v in graph && i < |graph[v]|
      modifies this
      ensures Valid(grey + {v}) && Scan(e0, v, i + 1)
      ensures KeepsLow(e0, old(lowlink), lowlink)
      decreases Unvisited(graph, e0.num), 1
    {
      hide Shape, NoUnvisited, GreyReaches, AllReachGrey, Emitted, Scanning, Reach, Unvisited;
      var w := graph[v][i];
      ScanningFacts(graph, e0, View(), v, lowlink[v], i);
      if w !in graph {
        ScanNoChange(graph, e0, View(), v, lowlink[v], i);
      } else if w !in index {
        Descend(v, i, e0, grey);
      } else if w in stacked {
        ScanBackEdge(graph, e0, View(), v, lowlink[v], i);
        if index[w] < lowlink[v] {
          lowlink := lowlink[v := index[w]];
        }
      } else {
        EntryStackStaysStacked(graph, e0, View());
        ScanNoChange(graph, e0, View(), v, lowlink[v], i);
      }
    }

    /** What follows the loop: a root pops and emits its component. */
    method Leave(v: InstanceID, ghost e0: Env, ghost grey: set<InstanceID>)
      requires Valid(grey + {v}) && Inv(graph, e0, grey)
      requires v in graph && Scan(e0, v, |graph[v]|)
      modifies this`stack, this`stacked, this`output
      ensures Valid(grey) && Finished(e0, v)
    {
      hide Shape, NoUnvisited, GreyReaches, AllReachGrey, Emitted, LowLink, Scanning, Reach, Distinct;
      ghost var e := View();
      ScanningFacts(graph, e0, e, v, lowlink[v], |graph[v]|);
      if index[v] == lowlink[v] {
        StackIsDistinct(graph, e);
        var component := PopComponent(v, |e0.stack|);
        output := output + [component];
        PopKeepsInv(graph, e0, e, v, lowlink[v], grey, component);
        assert View() == Popped(e0, e, component);
      } else {
        StayKeepsInv(graph, e0, e, v, lowlink[v], grey);
      }
    }

    method StrongConnect(v: InstanceID, ghost grey: set<InstanceID>)
      requires Valid(grey) && v in graph && v !in index
      requires forall x :: x in grey ==> Reach(graph, x, v)
      modifies this
      ensures Valid(grey) && Finished(old(View()), v)
      ensures KeepsLow(old(View()), old(lowlink), lowlink)
      decreases Unvisited(graph, index), 2
    {
      hide Inv, Extends, LowLink, Scanning, Reach, KeepsLow, Unvisited;
      ghost var e0 := View();
      ExtendsRefl(e0);
      Enter(v, grey);
      for i := 0 to |graph[v]|
        invariant Valid(grey + {v}) && Scan(e0, v, i)
        invariant KeepsLow(e0, old(lowlink), lowlink)
      {
        ghost var before := lowlink;
        LookAt(v, i, e0, grey);
        KeepsLowTrans(e0, e0, old(lowlink), before, lowlink);
      }
      Leave(v, e0, grey);
    }
  }

  lemma EntryStackStaysStacked(g: Graph, e0: Env, e: Env)
    requires Shape(g, e) && Extends(e0, e)
    ensures forall x :: x in e0.stack ==> x in e.stacked
  {
    hide Vertices;
  }

  /** The strongly connected components of graphMap in reverse topological
      order. The vertices are tried in no particular order, as a Go map is. */
  method TarjanConnect(graphMap: Graph) returns (output: seq<seq<InstanceID>>)
    ensures IsReverseTopological(graphMap, output)
  {
    hide Shape, NoUnvisited, GreyReaches, AllReachGrey, LowLink, Reach, IsComponent, EdgesPointBack, Vertices;
    var c := new Connector(graphMap);
    InitialInv(graphMap);
    var vertices := graphMap.Keys;
    while vertices != {}
      invariant c.graph == graphMap && c.Valid({})
      invariant vertices <= graphMap.Keys
      invariant forall x :: x in graphMap ==> x in vertices || x in c.index
      decreases |vertices|
    {
      var v :| v in vertices;
      if v !in c.index {
        c.StrongConnect(v, {});
      }
      vertices := vertices - {v};
    }
    NothingLeftStacked(graphMap, c.View());
    output := c.output;
  }

  lemma InitialInv(g: Graph)
    ensures Inv(g, Env(0, map[], {}, [], []), {})
  {
  }

  /** With no call open every visited vertex has been emitted. */
  lemma NothingLeftStacked(g: Graph, e: Env)
    requires Inv(g, e, {})
    ensures Vertices(e.output) == e.num.Keys <= g.Keys
  {
    hide Reach, Edge, IsComponent, EdgesPointBack, Vertices;
    assert forall x :: x in e.stacked ==> ReachesGrey(g, e.num, {}, x);
    assert e.stacked == {};
  }
}
