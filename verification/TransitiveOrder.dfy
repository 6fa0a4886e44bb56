/** Order along whole dependency paths: a run executes an instance after all that
    it reaches exactly when the pruned graph has missed nothing. */
module TransitiveOrder {
  import opened Ids
  import opened Instances
  import opened Graphs
  import opened ExecutionOrder
  import opened Agreement
  import opened Handlers
  import opened Traces

  /** All that x reaches has been executed. */
  ghost predicate Settled(d: Graph, s: Replica, x: InstanceID) {
    forall y :: Reach(d, x, y) ==> y in s.executed
  }

  /** x and its direct dependencies are executed, so a run may leave x out. */
  ghost predicate MayBeLeftOut(d: Graph, s: Replica, x: InstanceID) {
    x in s.executed && x in d && forall e :: e in d[x] ==> e in s.executed
  }

  /** The check a caller can make: whatever may be left out is settled. */
  ghost predicate NoHazard(d: Graph, s: Replica) {
    forall x :: MayBeLeftOut(d, s, x) ==> Settled(d, s, x)
  }

  ghost predicate InOrder(d: Graph, log: seq<InstanceID>, x: InstanceID, y: InstanceID) {
    Before(log, y, x) || (Mutual(d, x, y) && Precedes(x, y))
  }

  /** A newly executed instance stands at some position of the order, and what
      was executed up to that position precedes it in the log. */
  lemma {:induction false} NewAtPosition(s1: Replica, order: seq<InstanceID>, k: nat, x: InstanceID) returns (j: nat)
    requires k <= |order| && x !in s1.executed && x in ApplyAll(s1, order[..k]).executed
    ensures j < k && order[j] == x && x !in ApplyAll(s1, order[..j]).executed
    ensures ApplyAll(s1, order[..j]).executed + [x] <= ApplyAll(s1, order[..k]).executed
  {
    var s2 := ApplyAll(s1, order[..k - 1]);
    assert order[..k][..k - 1] == order[..k - 1];
    if x in s2.executed {
      j := NewAtPosition(s1, order, k - 1, x);
    } else {
      j := k - 1;
    }
  }

  lemma BeforeInExtension(log: seq<InstanceID>, log': seq<InstanceID>, y: InstanceID, x: InstanceID)
    requires log + [x] <= log' && y in log
    ensures Before(log', y, x)
  {
    var i :| 0 <= i < |log| && log[i] == y;
    assert log'[i] == (log + [x])[i] == y && log'[|log|] == (log + [x])[|log|] == x;
  }

  lemma {:induction false} ExecutedFromOrder(s: Replica, ids: seq<InstanceID>, x: InstanceID)
    ensures x in ApplyAll(s, ids).executed ==> x in s.executed || x in ids
    ensures x in s.executed ==> x in ApplyAll(s, ids).executed
  {
    if ids != [] {
      ExecutedFromOrder(s, ids[..|ids| - 1], x);
    }
  }

  lemma BeforeIsLogged(log: seq<InstanceID>, a: InstanceID, b: InstanceID)
    requires Before(log, a, b)
    ensures a in log && b in log
  {
  }

  /** What comes before x in a log without duplicates lies in the part up to x. */
  lemma BeforeInPrefix(log: seq<InstanceID>, log': seq<InstanceID>, y: InstanceID, x: InstanceID)
    requires log + [x] <= log' && Distinct(log') && Before(log', y, x)
    ensures y in log
  {
    var i, j :| 0 <= i < j < |log'| && log'[i] == y && log'[j] == x;
    assert log'[|log|] == (log + [x])[|log|] == x;
    assert j == |log|;
    assert log[i] == (log + [x])[i] == y;
  }

  // ---------- the exact condition ----------

  /** The graph of the run leaves out w, a dependency of a vertex that x reaches
      in it, although w leads to z, which has not been executed. */
  ghost predicate Gap(d: Graph, s: Replica, r: Run, x: InstanceID, w: InstanceID, z: InstanceID) {
    && w !in r.added && Reach(d, w, z) && z !in s.executed
    && exists v :: LeadsOut(d, s, r, x, v, w)
  }

  ghost predicate LeadsOut(d: Graph, s: Replica, r: Run, x: InstanceID, v: InstanceID, w: InstanceID) {
    v in r.added && Reach(SubGraph(s.instances, r.added), x, v) && v in d && w in d[v]
  }

  /** Whatever is cut off from x that way stands before x in the order anyway. It
      speaks of the graph and the order of a run, known before it executes anything. */
  ghost predicate NothingMissed(d: Graph, s: Replica, r: Run, x: InstanceID) {
    forall w, z :: Gap(d, s, r, x, w, z) ==> Before(Flatten(r.comps), z, x)
  }

  /** A path from a vertex stays in the graph, leaves it towards executed
      instances only, or leaves it through a gap. */
  lemma {:induction false} PathLeaves(d: Graph, s: Replica, target: InstanceID, r: Run,
                                      x: InstanceID, v: InstanceID, y: InstanceID, p: seq<InstanceID>)
    requires Ordered(d, s, target, r) && v in r.added && Reach(SubGraph(s.instances, r.added), x, v) && IsPath(d, v, y, p)
    ensures || (y in r.added && Reach(SubGraph(s.instances, r.added), x, y))
            || y in s.executed
            || exists w :: Gap(d, s, r, x, w, y)
    decreases |p|
  {
    hide Inv, IsExecutionGraph, IsExecutionOrder, Reach, SubGraph;
    if p != [] {
      var g, z := SubGraph(s.instances, r.added), p[0];
      DepIsAddedOrExecuted(d, s, target, r.added, v, z);
      if z in r.added {
        EdgeInSubGraph(d, s, r.added, v, z);
        ReachEdge(g, v, z);
        ReachTrans(g, x, v, z);
        PathLeaves(d, s, target, r, x, z, y, p[1..]);
      } else {
        PathIsReach(d, z, y, p[1..]);
        assert LeadsOut(d, s, r, x, v, z);
        assert y !in s.executed ==> Gap(d, s, r, x, z, y);
      }
    }
  }

  /** Paths of the graph lead to components no later in the order. */
  lemma {:induction false} PathLeadsBack(g: Graph, comps: seq<seq<InstanceID>>, i: nat, x: InstanceID, y: InstanceID, p: seq<InstanceID>)
    requires EdgesPointBack(g, comps) && i < |comps| && x in comps[i] && IsPath(g, x, y, p)
    ensures InFirst(comps, i + 1, y)
    decreases |p|
  {
    if p != [] {
      assert InFirst(comps, i + 1, p[0]);
      var j :| 0 <= j < i + 1 && j < |comps| && p[0] in comps[j];
      PathLeadsBack(g, comps, j, p[0], y, p[1..]);
    }
  }

  lemma ReachLeadsBack(s: Replica, r: Run, i: nat, x: InstanceID, y: InstanceID)
    requires IsExecutionOrder(SubGraph(s.instances, r.added), r.comps)
    requires i < |r.comps| && x in r.comps[i] && Reach(SubGraph(s.instances, r.added), x, y)
    ensures InFirst(r.comps, i + 1, y)
  {
    hide SubGraph, EdgesPointBack;
    var p :| IsPath(SubGraph(s.instances, r.added), x, y, p);
    PathLeadsBack(SubGraph(s.instances, r.added), r.comps, i, x, y, p);
  }

  lemma {:induction false} FlattenDistinct(comps: seq<seq<InstanceID>>)
    requires DisjointComponents(comps) && forall i :: 0 <= i < |comps| ==> Distinct(comps[i])
    ensures Distinct(Flatten(comps))
  {
    if comps != [] {
      var n := |comps| - 1;
      FlattenDistinct(comps[..n]);
      forall x | x in Flatten(comps[..n]) ensures x !in comps[n] {
        var i := FlattenSource(comps[..n], x);
      }
      DistinctConcat(Flatten(comps[..n]), comps[n]);
    }
  }

  lemma DistinctConcat(a: seq<InstanceID>, b: seq<InstanceID>)
    requires Distinct(a) && Distinct(b) && forall x :: x in a ==> x !in b
    ensures Distinct(a + b)
  {
    forall i, j | 0 <= i < j < |a + b| ensures (a + b)[i] != (a + b)[j] {
      if i < |a| <= j {
        assert a[i] in a && b[j - |a|] in b;
      }
    }
  }

  lemma OrderIsDistinct(s: Replica, r: Run)
    requires IsExecutionOrder(SubGraph(s.instances, r.added), r.comps)
    ensures Distinct(Flatten(r.comps))
  {
    hide SubGraph, EdgesPointBack, Flatten, Mutual;
    forall i | 0 <= i < |r.comps| ensures Distinct(r.comps[i]) {
      assert IsComponent(SubGraph(s.instances, r.added), r.comps[i]);
    }
    FlattenDistinct(r.comps);
  }

  /** Where a newly executed instance stands in the order and in the log. */
  lemma NewInRun(d: Graph, s: Replica, target: InstanceID, r: Run, s': Replica, x: InstanceID) returns (j: nat, s2: Replica)
    requires Inv(d, s) && StatusesValid(s.instances) && IsRun(s, target, r, s')
    requires x in s'.executed && x !in s.executed
    ensures Underway(d, s, target, r, s2, j) && j < |Flatten(r.comps)| && Flatten(r.comps)[j] == x
    ensures s2.executed + [x] <= s'.executed && forall y :: y in s2.executed ==> y in s.executed || y in Flatten(r.comps)[..j]
    ensures Inv(d, s') && x in r.added
  {
    hide Inv, IsExecutionGraph, IsExecutionOrder, Flatten, RecordAll, ApplyAll;
    var s1 := s.(instances := RecordAll(s.instances, r.comps));
    var order := Flatten(r.comps);
    j := NewAtPosition(s1, order, r.k, x);
    s2 := ApplyAll(s1, order[..j]);
    PrefixUnderway(d, s, target, r, j);
    PrefixUnderway(d, s, target, r, r.k);
    forall y | y in s2.executed ensures y in s.executed || y in order[..j] {
      ExecutedFromOrder(s1, order[..j], y);
    }
    var i, q := FlattenAt(r.comps, j);
    OrderComponent(d, s, target, r, i, x, x);
  }

  /** x comes after all that it reaches, larger members of its component aside. */
  ghost predicate PathsInOrder(d: Graph, log: seq<InstanceID>, x: InstanceID) {
    forall y :: Reach(d, x, y) && y != x ==> InOrder(d, log, x, y)
  }

  /** What is cut off from x by a gap is not in the component of x. */
  lemma GapIsNotMutual(d: Graph, s: Replica, target: InstanceID, r: Run, x: InstanceID, w: InstanceID, z: InstanceID)
    requires Ordered(d, s, target, r) && x in r.added && Gap(d, s, r, x, w, z) && w in d
    ensures Reach(d, x, z) && z != x && !Mutual(d, x, z)
  {
    hide Inv, IsExecutionGraph, IsExecutionOrder, Reach, SubGraph;
    var v :| LeadsOut(d, s, r, x, v, w);
    InGraphIsReach(d, s, r.added, x, v);
    ReachEdge(d, v, w);
    ReachTrans(d, x, v, w);
    ReachTrans(d, x, w, z);
    ReachRefl(d, x);
    if Mutual(d, x, z) || z == x {
      BetweenIsMutual(d, x, w, z);
      ComponentIsAdded(d, s, target, r.added, x, w);
      assert false;
    }
  }

  lemma InGraphIsReach(d: Graph, s: Replica, added: seq<InstanceID>, x: InstanceID, v: InstanceID)
    requires Inv(d, s) && AllCommitted(s.instances, added) && Reach(SubGraph(s.instances, added), x, v)
    ensures Reach(d, x, v)
  {
    hide Inv, SubGraph;
    var p :| IsPath(SubGraph(s.instances, added), x, v, p);
    SubGraphPath(d, s, added, x, v, p);
  }

  lemma GapStartsAtVertex(d: Graph, s: Replica, target: InstanceID, r: Run, x: InstanceID, w: InstanceID, z: InstanceID)
    requires Ordered(d, s, target, r) && Gap(d, s, r, x, w, z)
    ensures w in d
  {
    hide Inv, IsExecutionGraph, IsExecutionOrder, Reach, SubGraph;
    var v :| LeadsOut(d, s, r, x, v, w);
    DepIsAddedOrExecuted(d, s, target, r.added, v, w);
  }

  lemma OrderedThenNothingMissed(d: Graph, s: Replica, target: InstanceID, r: Run, s': Replica, x: InstanceID)
    requires Inv(d, s) && StatusesValid(s.instances) && IsRun(s, target, r, s')
    requires x in s'.executed && x !in s.executed && PathsInOrder(d, s'.executed, x)
    ensures NothingMissed(d, s, r, x)
  {
    hide Inv, IsExecutionGraph, IsExecutionOrder, Flatten, RecordAll, ApplyAll, Reach, Gap, Mutual, Precedes, Before;
    var order := Flatten(r.comps);
    var j, s2 := NewInRun(d, s, target, r, s', x);
    LogIsDistinct(d, s');
    forall w, z | Gap(d, s, r, x, w, z) ensures Before(order, z, x) {
      GapStartsAtVertex(d, s, target, r, x, w, z);
      GapIsNotMutual(d, s, target, r, x, w, z);
      GapIsUnexecuted(d, s, r, x, w, z);
      BeforeInPrefix(s2.executed, s'.executed, z, x);
      assert order[..j] + [x] <= order;
      BeforeInExtension(order[..j], order, z, x);
    }
  }

  lemma GapIsUnexecuted(d: Graph, s: Replica, r: Run, x: InstanceID, w: InstanceID, z: InstanceID)
    requires Gap(d, s, r, x, w, z)
    ensures z !in s.executed
  {
  }

  lemma LogIsDistinct(d: Graph, s: Replica)
    requires Inv(d, s)
    ensures Distinct(s.executed)
  {
    hide CommitsAgree, ExecutedClosed, ComponentsRecorded, DepsFirst, ComponentsInIdOrder;
  }

  lemma NothingMissedThenOrdered(d: Graph, s: Replica, target: InstanceID, r: Run, s': Replica, x: InstanceID, y: InstanceID)
    requires Inv(d, s) && StatusesValid(s.instances) && IsRun(s, target, r, s')
    requires x in s'.executed && x !in s.executed && NothingMissed(d, s, r, x) && Reach(d, x, y) && y != x
    ensures InOrder(d, s'.executed, x, y)
  {
    hide Inv, IsExecutionGraph, IsExecutionOrder, Flatten, RecordAll, ApplyAll, Gap, Mutual, Precedes, Before;
    var order := Flatten(r.comps);
    var j, s2 := NewInRun(d, s, target, r, s', x);
    var p :| IsPath(d, x, y, p);
    ReachRefl(SubGraph(s.instances, r.added), x);
    PathLeaves(d, s, target, r, x, x, y, p);
    if y in s.executed {
      BeforeInExtension(s2.executed, s'.executed, y, x);
    } else if w :| Gap(d, s, r, x, w, y) {
      OrderIsDistinct(s, r);
      assert order[..j] + [x] <= order;
      BeforeInPrefix(order[..j], order, y, x);
      BeforeInExtension(s2.executed, s'.executed, y, x);
    } else {
      InGraphInOrder(d, s, target, r, s2, j, x, y);
      if y in s2.executed {
        BeforeInExtension(s2.executed, s'.executed, y, x);
      }
    }
  }

  /** What x reaches in the graph has been executed when x comes up, or is a
      larger member of its component. */
  lemma InGraphInOrder(d: Graph, s: Replica, target: InstanceID, r: Run, s2: Replica, j: nat, x: InstanceID, y: InstanceID)
    requires Underway(d, s, target, r, s2, j) && j < |Flatten(r.comps)| && Flatten(r.comps)[j] == x && y != x
    requires Reach(SubGraph(s.instances, r.added), x, y)
    ensures y in s2.executed || (Mutual(d, x, y) && Precedes(x, y))
  {
    hide Inv, IsExecutionGraph, IsExecutionOrder, Flatten, RecordAll, SubGraph, Mutual, Precedes, Reach;
    var i, q := FlattenAt(r.comps, j);
    ReachLeadsBack(s, r, i, x, y);
    if y in r.comps[i] {
      OrderComponent(d, s, target, r, i, x, y);
      PrecedesIsStrictTotalOrder(x, y, x);
      if !Precedes(x, y) {
        MutualSym(d, x, y);
        NextPredecessorsDone(d, s, target, r, s2, j, y);
      }
    } else {
      InOrderPrefix(r.comps, j, i, q, y);
    }
  }

  /** For every run and every instance it executes: the instance comes after all
      that it reaches if and only if nothing it reaches was missed. */
  lemma PathOrderExactly(d: Graph, s: Replica, target: InstanceID, r: Run, s': Replica, x: InstanceID)
    requires Inv(d, s) && StatusesValid(s.instances) && IsRun(s, target, r, s')
    requires x in s'.executed && x !in s.executed
    ensures PathsInOrder(d, s'.executed, x) <==> NothingMissed(d, s, r, x)
  {
    hide Inv, IsRun, NothingMissed, InOrder, Reach;
    if PathsInOrder(d, s'.executed, x) {
      OrderedThenNothingMissed(d, s, target, r, s', x);
    }
    if NothingMissed(d, s, r, x) {
      forall y | Reach(d, x, y) && y != x ensures InOrder(d, s'.executed, x, y) {
        NothingMissedThenOrdered(d, s, target, r, s', x, y);
      }
    }
  }

  // ---------- without a hazard ----------

  lemma LeftOutIsExecuted(d: Graph, s: Replica, target: InstanceID, added: seq<InstanceID>, x: InstanceID, w: InstanceID)
    requires Inv(d, s) && IsExecutionGraph(s.instances, target, added) && AllCommitted(s.instances, added)
    requires x in added && x in d && w in d[x] && w !in added
    ensures MayBeLeftOut(d, s, w)
  {
    hide Reach, Mutual, ExecutedClosed, ComponentsRecorded, DepsFirst, ComponentsInIdOrder, IsInsertion;
    DepIsAddedOrExecuted(d, s, target, added, x, w);
    assert Handled(s.instances, s.instances[target].deps, Elements(added), x, w);
    assert IsCommitted(s.instances, w);
  }

  /** If all that may be left out is settled, nothing is ever missed. */
  lemma NoHazardKeepsPaths(d: Graph, s: Replica, target: InstanceID, r: Run, s': Replica, x: InstanceID)
    requires Inv(d, s) && StatusesValid(s.instances) && IsRun(s, target, r, s') && NoHazard(d, s)
    requires x in s'.executed && x !in s.executed
    ensures PathsInOrder(d, s'.executed, x)
  {
    hide Inv, IsExecutionGraph, IsExecutionOrder, Flatten, RecordAll, ApplyAll, Reach, Before, PathsInOrder;
    forall w, z ensures !Gap(d, s, r, x, w, z) {
      if Gap(d, s, r, x, w, z) {
        var v :| LeadsOut(d, s, r, x, v, w);
        LeftOutIsExecuted(d, s, target, r.added, v, w);
        assert false;
      }
    }
    PathOrderExactly(d, s, target, r, s', x);
  }

  // ---------- with one ----------

  /** t depends on p alone and p on w alone; neither has been sorted before, and
      w is an executed instance that may be left out. */
  ghost predicate Chain(d: Graph, s: Replica, t: InstanceID, p: InstanceID, w: InstanceID) {
    && Inv(d, s) && StatusesValid(s.instances)
    && t != p && t in s.instances && p in s.instances
    && s.instances[t].status == COMMITTED && s.instances[p].status == COMMITTED
    && s.instances[t].deps == [p] && s.instances[p].deps == [w]
    && s.instances[t].scc == {} && s.instances[p].scc == {}
    && MayBeLeftOut(d, s, w)
  }

  lemma ChainFacts(d: Graph, s: Replica, t: InstanceID, p: InstanceID, w: InstanceID)
    requires Chain(d, s, t, p, w)
    ensures t !in s.executed && p !in s.executed && w != t && w != p
    ensures IsExecuted(s.instances, w) && forall e :: e in s.instances[w].deps ==> IsExecuted(s.instances, e)
    ensures t in d && SameMembers([p], d[t]) && p in d && SameMembers([w], d[p])
  {
    hide Reach, Mutual, ExecutedClosed, ComponentsRecorded, DepsFirst, ComponentsInIdOrder;
    assert IsCommitted(s.instances, t) && IsCommitted(s.instances, p) && IsCommitted(s.instances, w);
  }

  lemma LeftOutIsNotWanted(d: Graph, s: Replica, t: InstanceID, p: InstanceID, w: InstanceID, before: seq<InstanceID>)
    requires Chain(d, s, t, p, w) && forall x :: x in before ==> x == t || x == p
    ensures !Wanted(s.instances, [p], before, w)
  {
    hide Inv, MayBeLeftOut;
    ChainFacts(d, s, t, p, w);
    assert !Required(s.instances, before, w);
  }

  lemma DiscoveredFromChain(d: Graph, s: Replica, t: InstanceID, p: InstanceID, w: InstanceID, before: seq<InstanceID>, x: InstanceID)
    requires Chain(d, s, t, p, w) && forall y :: y in before ==> y == t || y == p
    requires Discovered(s.instances, before, x)
    ensures x == p || x == w
  {
    hide Inv, MayBeLeftOut;
  }

  /** The first vertex other than t and p would have to be w, which is left out. */
  lemma {:induction false} OnlyChainAdded(d: Graph, s: Replica, t: InstanceID, p: InstanceID, w: InstanceID, added: seq<InstanceID>, n: nat)
    requires Chain(d, s, t, p, w) && IsInsertion(s.instances, [p], t, added) && n <= |added|
    ensures forall x :: x in added[..n] ==> x == t || x == p
  {
    hide Chain, Discovered, Wanted, Distinct;
    if n > 0 {
      OnlyChainAdded(d, s, t, p, w, added, n - 1);
      var before, x := added[..n - 1], added[n - 1];
      assert added[..n] == before + [x];
      if n > 1 {
        DiscoveredFromChain(d, s, t, p, w, before, x);
        LeftOutIsNotWanted(d, s, t, p, w, before);
        assert Wanted(s.instances, [p], before, x);
      }
    }
  }

  lemma ChainIsTheGraph(d: Graph, s: Replica, t: InstanceID, p: InstanceID, w: InstanceID, added: seq<InstanceID>)
    requires Chain(d, s, t, p, w) && IsExecutionGraph(s.instances, t, added)
    ensures forall x :: x in added <==> x == t || x == p
  {
    hide Inv, MayBeLeftOut, Wanted, Discovered;
    OnlyChainAdded(d, s, t, p, w, added, |added|);
    assert added[..|added|] == added;
    ChainFacts(d, s, t, p, w);
    assert added != [] && added[0] == t;
    assert AllHandled(s.instances, [p], Elements(added), t);
    assert p in s.instances[t].deps;
    assert Handled(s.instances, [p], Elements(added), t, p);
  }

  /** A run on t that completes executes p and t and nothing else. */
  lemma ChainExecutesOnlyItself(d: Graph, s: Replica, t: InstanceID, p: InstanceID, w: InstanceID, r: Run, s': Replica, x: InstanceID)
    requires Chain(d, s, t, p, w) && IsRun(s, t, r, s') && Completes(s, t, r)
    ensures x in s'.executed <==> x in s.executed || x == t || x == p
  {
    hide Inv, MayBeLeftOut, IsExecutionGraph, Flatten, RecordAll, ApplyAll, EdgesPointBack;
    ChainIsTheGraph(d, s, t, p, w, r.added);
    var s1 := s.(instances := RecordAll(s.instances, r.comps));
    var order := Flatten(r.comps);
    ExecutedFromOrder(s1, order[..r.k], x);
    if x in order[..r.k] {
      var i := FlattenSource(r.comps, x);
      OrderComponent(d, s, t, r, i, x, x);
    }
    PrefixUnderway(d, s, t, r, r.k);
    ChainIsExecuted(d, s, t, p, w, r, s');
  }

  lemma ChainIsExecuted(d: Graph, s: Replica, t: InstanceID, p: InstanceID, w: InstanceID, r: Run, s': Replica)
    requires Chain(d, s, t, p, w) && IsRun(s, t, r, s') && Completes(s, t, r)
    requires forall x :: x in r.added <==> x == t || x == p
    ensures t in s'.executed && p in s'.executed
  {
    hide Inv, MayBeLeftOut, IsExecutionGraph, Flatten, RecordAll, ApplyAll, EdgesPointBack, IsReverseTopological, Mutual, Before, Precedes;
    var order := Flatten(r.comps);
    PrefixUnderway(d, s, t, r, r.k);
    var i := VertexIsInComponent(SubGraph(s.instances, r.added), r.comps, t);
    FlattenMember(r.comps, i, t);
    assert order[..|order|] == order;
    assert t in order[..r.k];
    assert t in s'.executed;
    ChainFacts(d, s, t, p, w);
    assert p in d[t];
    DirectDepFirst(d, s', t, p);
    if Mutual(d, t, p) {
      ChainIsAcyclic(d, s, t, p, w);
    }
    BeforeIsLogged(s'.executed, p, t);
  }

  lemma DirectDepFirst(d: Graph, s: Replica, x: InstanceID, w: InstanceID)
    requires Inv(d, s) && x in s.executed && x in d && w in d[x] && w != x
    ensures Before(s.executed, w, x) || Mutual(d, x, w)
  {
    hide CommitsAgree, ExecutedClosed, ComponentsRecorded, ComponentsInIdOrder, LogIsExact, Mutual, Precedes, Before;
  }

  /** w cannot lead back to p or t, or a component would have been recorded. */
  lemma ChainIsAcyclic(d: Graph, s: Replica, t: InstanceID, p: InstanceID, w: InstanceID)
    requires Chain(d, s, t, p, w)
    ensures !Mutual(d, t, p) && !Reach(d, w, p) && !Reach(d, w, t)
  {
    hide CommitsAgree, ExecutedClosed, DepsFirst, ComponentsInIdOrder, Reach;
    ChainFacts(d, s, t, p, w);
    CommittedIsVertex(d, s, w);
    assert Edge(d, p, w) && Edge(d, t, p);
    ReachEdge(d, p, w);
    ReachEdge(d, t, p);
    ReachTrans(d, t, p, w);
    ReachRefl(d, p);
    assert Mutual(d, p, p);
    assert Reach(d, w, p) <==> Mutual(d, w, p);
    if Reach(d, w, p) {
      assert false;
    }
    if Reach(d, w, t) {
      ReachTrans(d, w, t, p);
      assert false;
    }
    if Reach(d, p, t) {
      FirstStep(d, p, t, w);
      assert false;
    }
  }

  lemma CommittedIsVertex(d: Graph, s: Replica, x: InstanceID)
    requires Inv(d, s) && IsExecuted(s.instances, x)
    ensures x in d
  {
    hide ExecutedClosed, DepsFirst, ComponentsInIdOrder, ComponentsRecorded;
    assert IsCommitted(s.instances, x);
  }

  /** A path from an instance with the single dependency w goes through w. */
  lemma FirstStep(d: Graph, p: InstanceID, z: InstanceID, w: InstanceID)
    requires Reach(d, p, z) && z != p && p in d && SameMembers([w], d[p])
    ensures Reach(d, w, z)
  {
    var path :| IsPath(d, p, z, path);
    assert path[0] in d[p];
    assert path[0] in [w];
    PathIsReach(d, w, z, path[1..]);
  }

  lemma OrderIsAdded(d: Graph, s: Replica, target: InstanceID, r: Run, z: InstanceID)
    requires Ordered(d, s, target, r) && z in Flatten(r.comps)
    ensures z in r.added
  {
    hide Ordered, Flatten;
    var i := FlattenSource(r.comps, z);
    OrderComponent(d, s, target, r, i, z, z);
  }

  /** For a chain the condition says that the instance left out is settled. */
  lemma ChainMissesIffUnsettled(d: Graph, s: Replica, t: InstanceID, p: InstanceID, w: InstanceID, r: Run, s': Replica)
    requires Chain(d, s, t, p, w) && IsRun(s, t, r, s')
    ensures NothingMissed(d, s, r, p) <==> Settled(d, s, w)
  {
    hide Inv, MayBeLeftOut, IsExecutionGraph, IsExecutionOrder, Flatten, RecordAll, ApplyAll, Reach, Before;
    ChainIsTheGraph(d, s, t, p, w, r.added);
    ChainFacts(d, s, t, p, w);
    ChainIsAcyclic(d, s, t, p, w);
    assert LeadsOut(d, s, r, p, p, w) by { ReachRefl(SubGraph(s.instances, r.added), p); }
    if Settled(d, s, w) {
      forall w', z ensures !Gap(d, s, r, p, w', z) {
        assert Gap(d, s, r, p, w', z) ==> w' == w;
      }
    }
    if NothingMissed(d, s, r, p) {
      forall z | Reach(d, w, z) ensures z in s.executed {
        if z !in s.executed {
          assert Gap(d, s, r, p, w, z);
          BeforeIsLogged(Flatten(r.comps), z, p);
          OrderIsAdded(d, s, t, r, z);
          assert false;
        }
      }
    }
  }

  /** All p reaches is executed before p exactly when w is settled: on a chain
      the code keeps the order along paths if and only if the instance it leaves
      out has nothing unexecuted behind it. */
  lemma PathOrderIffSettled(d: Graph, s: Replica, t: InstanceID, p: InstanceID, w: InstanceID, r: Run, s': Replica)
    requires Chain(d, s, t, p, w) && IsRun(s, t, r, s') && Completes(s, t, r)
    ensures PathsInOrder(d, s'.executed, p) <==> Settled(d, s, w)
  {
    hide Inv, MayBeLeftOut, IsRun, Completes, PathsInOrder, NothingMissed, Settled;
    ChainFacts(d, s, t, p, w);
    ChainExecutesOnlyItself(d, s, t, p, w, r, s', p);
    PathOrderExactly(d, s, t, r, s', p);
    ChainMissesIffUnsettled(d, s, t, p, w, r, s');
  }

  // ---------- every chain has a run ----------

  lemma ChainGraph(d: Graph, s: Replica, t: InstanceID, p: InstanceID, w: InstanceID)
    requires Chain(d, s, t, p, w)
    ensures IsExecutionGraph(s.instances, t, [t, p])
  {
    hide Inv, MayBeLeftOut, Required;
    ChainFacts(d, s, t, p, w);
    var insts, added := s.instances, [t, p];
    assert added[..0] == [] && added[..1] == [t];
    assert t in [t] && p in insts[t].deps;
    assert Discovered(insts, [t], p);
    assert {t, p} <= Elements(added);
    assert Skippable(insts, [p], p, w);
  }

  lemma DeadEnd(g: Graph, u: InstanceID, y: InstanceID)
    requires Reach(g, u, y) && forall v :: !Edge(g, u, v)
    ensures y == u
  {
    var p :| IsPath(g, u, y, p);
  }

  lemma ChainOrder(d: Graph, s: Replica, t: InstanceID, p: InstanceID, w: InstanceID)
    requires Chain(d, s, t, p, w)
    ensures IsExecutionOrder(SubGraph(s.instances, [t, p]), [[p], [t]])
  {
    hide Inv, MayBeLeftOut, Reach;
    ChainFacts(d, s, t, p, w);
    var g, comps := SubGraph(s.instances, [t, p]), [[p], [t]];
    assert t in [t, p] && p in [t, p];
    assert g.Keys == {t, p} && g[t] == [p] && g[p] == [w];
    ReachRefl(g, t);
    ReachRefl(g, p);
    if Reach(g, p, t) {
      DeadEnd(g, p, t);
    }
    assert comps[0] == [p] && comps[1] == [t];
    assert IsComponent(g, [p]) && IsComponent(g, [t]);
    forall i, x, y | 0 <= i < |comps| && x in comps[i] && Edge(g, x, y) ensures InFirst(comps, i + 1, y) {
      assert p in comps[0];
    }
    assert Vertices(comps) == g.Keys by {
      assert p in comps[0] && t in comps[1];
    }
  }

  lemma FlattenTwo(a: seq<InstanceID>, b: seq<InstanceID>)
    ensures Flatten([a, b]) == a + b
  {
    assert [a, b][..1] == [a] && |[a][..0]| == 0;
    assert Flatten([a]) == a;
  }

  /** So what is said of runs on a chain is said of something: p is executed, then t. */
  lemma ChainHasRun(d: Graph, s: Replica, t: InstanceID, p: InstanceID, w: InstanceID) returns (r: Run, s': Replica)
    requires Chain(d, s, t, p, w)
    ensures IsRun(s, t, r, s') && Completes(s, t, r)
  {
    hide Inv, MayBeLeftOut, IsExecutionGraph, IsExecutionOrder, Flatten, RecordAll, ApplyAll;
    r := Run([t, p], [[p], [t]], 2);
    ChainGraph(d, s, t, p, w);
    ChainOrder(d, s, t, p, w);
    FlattenTwo([p], [t]);
    s' := ApplyAll(s.(instances := RecordAll(s.instances, r.comps)), Flatten(r.comps)[..2]);
  }

  // ---------- whole logs ----------

  /** runs[k] is how the execution at step k went. */
  ghost predicate AreRuns(states: seq<Replica>, labels: seq<Label>, runs: seq<Run>) {
    && |states| == |labels| + 1 && |runs| == |labels|
    && (forall k :: 0 <= k < |labels| && labels[k].Execute? ==> IsRun(states[k], labels[k].target, runs[k], states[k + 1]))
  }

  lemma {:induction false} TraceHasRuns(states: seq<Replica>, labels: seq<Label>, n: nat) returns (runs: seq<Run>)
    requires IsTrace(states, labels) && n <= |labels|
    ensures AreRuns(states[..n + 1], labels[..n], runs)
  {
    hide IsRun;
    if n == 0 {
      runs := [];
    } else {
      runs := TraceHasRuns(states, labels, n - 1);
      var r := Run([], [], 0);
      assert Step(states[n - 1], labels[n - 1], states[n]);
      if labels[n - 1].Execute? {
        r :| IsRun(states[n - 1], labels[n - 1].target, r, states[n]);
      }
      forall k | 0 <= k < n && labels[..n][k].Execute?
        ensures IsRun(states[..n + 1][k], labels[..n][k].target, (runs + [r])[k], states[..n + 1][k + 1])
      {
        if k < n - 1 {
          assert states[..n][k] == states[k] && states[..n][k + 1] == states[k + 1] && labels[..n - 1][k] == labels[k];
        }
      }
      runs := runs + [r];
    }
  }

  ghost predicate NothingMissedAt(d: Graph, s: Replica, l: Label, r: Run, s': Replica) {
    l.Execute? ==> forall x :: x in s'.executed && x !in s.executed ==> NothingMissed(d, s, r, x)
  }

  ghost predicate LogInPathOrder(d: Graph, log: seq<InstanceID>) {
    forall x :: x in log ==> PathsInOrder(d, log, x)
  }

  /** Later entries do not change how an entry stands to those before it. */
  lemma OrderIsKept(d: Graph, log: seq<InstanceID>, log': seq<InstanceID>, x: InstanceID)
    requires log <= log' && Distinct(log') && x in log
    ensures PathsInOrder(d, log, x) <==> PathsInOrder(d, log', x)
  {
    hide Reach, Mutual, Precedes;
    forall y ensures Before(log, y, x) <==> Before(log', y, x) {
      BeforeIsKept(log, log', y, x);
    }
    assert forall y :: InOrder(d, log, x, y) <==> InOrder(d, log', x, y);
  }

  lemma BeforeIsKept(log: seq<InstanceID>, log': seq<InstanceID>, y: InstanceID, x: InstanceID)
    requires log <= log' && Distinct(log') && x in log
    ensures Before(log, y, x) <==> Before(log', y, x)
  {
    if Before(log, y, x) {
      var i, j :| 0 <= i < j < |log| && log[i] == y && log[j] == x;
      assert log'[i] == y && log'[j] == x;
    }
    if Before(log', y, x) {
      var i, j :| 0 <= i < j < |log'| && log'[i] == y && log'[j] == x;
      var m :| 0 <= m < |log| && log[m] == x;
      assert log'[m] == x;
      assert m == j;
      assert log[i] == y && log[j] == x;
    }
  }

  lemma StepInPathOrder(d: Graph, s: Replica, l: Label, r: Run, s': Replica)
    requires Sound(d, s) && Sound(d, s') && Step(s, l, s') && (l.Execute? ==> IsRun(s, l.target, r, s'))
    ensures LogInPathOrder(d, s'.executed) <==> LogInPathOrder(d, s.executed) && NothingMissedAt(d, s, l, r, s')
  {
    hide Inv, IsRun, ExecuteStep, Next, AppliedMatches, NothingMissed, PathsInOrder;
    if l.Execute? {
      RunKeepsInv(d, s, l.target, r, s');
      LogIsDistinct(d, s');
      forall x | x in s.executed ensures x in s'.executed && (PathsInOrder(d, s.executed, x) <==> PathsInOrder(d, s'.executed, x)) {
        OrderIsKept(d, s.executed, s'.executed, x);
      }
      forall x | x in s'.executed && x !in s.executed ensures PathsInOrder(d, s'.executed, x) <==> NothingMissed(d, s, r, x) {
        PathOrderExactly(d, s, l.target, r, s', x);
      }
    }
  }

  /** Over every run of a replica: each instance of the log comes after all that
      it reaches if and only if no execution has missed anything. */
  lemma {:induction false} LogInPathOrderExactly(d: Graph, states: seq<Replica>, labels: seq<Label>, runs: seq<Run>, n: nat)
    requires IsTrace(states, labels) && states[0] == EMPTY && AllCommitsAgree(d, states) && n < |states|
    requires AreRuns(states, labels, runs)
    ensures LogInPathOrder(d, states[n].executed)
       <==> forall k :: 0 <= k < n ==> NothingMissedAt(d, states[k], labels[k], runs[k], states[k + 1])
  {
    hide Step, Sound, IsRun, CommitsAgree, LogInPathOrder, NothingMissedAt;
    if n == 0 {
      EmptyIsInOrder(d);
    } else {
      LogInPathOrderExactly(d, states, labels, runs, n - 1);
      ReachableIsSound(d, states, labels, n - 1);
      ReachableIsSound(d, states, labels, n);
      StepInPathOrder(d, states[n - 1], labels[n - 1], runs[n - 1], states[n]);
    }
  }

  /** Two replicas whose logs are ordered along paths agree along paths. */
  lemma PathAgreement(d: Graph, s: Replica, t: Replica, x: InstanceID, y: InstanceID)
    requires Reachable(d, s) && Reachable(d, t) && LogInPathOrder(d, s.executed) && LogInPathOrder(d, t.executed)
    requires Reach(d, x, y) && x in s.executed && y in s.executed && x in t.executed && y in t.executed
    ensures Before(s.executed, y, x) <==> Before(t.executed, y, x)
  {
    hide Reachable, Reach, Mutual, Before;
    if y == x || Mutual(d, x, y) {
      assert Mutual(d, x, x) by { SelfIsMutual(d, x); }
      ExecutionAgreement(d, s, t, x, y);
    } else {
      assert PathsInOrder(d, s.executed, x) && PathsInOrder(d, t.executed, x);
      assert InOrder(d, s.executed, x, y) && InOrder(d, t.executed, x, y);
    }
  }

  lemma SelfIsMutual(d: Graph, x: InstanceID)
    ensures Mutual(d, x, x)
  {
    ReachRefl(d, x);
  }

  lemma EmptyIsInOrder(d: Graph)
    ensures LogInPathOrder(d, EMPTY.executed)
  {
  }
}
