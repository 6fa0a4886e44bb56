/** Every replica executes interfering instances in the same order, although
    most executed instances are left out of the graphs that are sorted. */
module Agreement {
  import opened Ids
  import opened Instances
  import opened Graphs
  import opened ExecutionOrder

  // ---------- invariants ----------
  // d gives the dependencies each instance is committed with, on any replica.

  ghost predicate CommitsAgree(d: Graph, insts: InstanceMap) {
    forall x :: IsCommitted(insts, x) ==> x in d && SameMembers(insts[x].deps, d[x])
  }

  /** Whatever x depends on, directly or not, is known and committed. */
  ghost predicate Grounded(d: Graph, insts: InstanceMap, x: InstanceID) {
    forall y, w :: Reach(d, x, y) && y in d && w in d[y] ==> IsCommitted(insts, w)
  }

  ghost predicate ExecutedClosed(d: Graph, insts: InstanceMap) {
    forall x :: IsExecuted(insts, x) ==> Grounded(d, insts, x)
  }

  ghost predicate LogIsExact(s: Replica) {
    && Distinct(s.executed)
    && (forall x :: x in s.executed <==> IsExecuted(s.instances, x))
  }

  /** inst carries exactly its own component. */
  ghost predicate RecordedExactly(d: Graph, insts: InstanceMap, x: InstanceID) {
    x in insts && forall z :: z in insts[x].scc <==> Mutual(d, x, z)
  }

  /** A recorded component is a true component, and every component of more
      than one instance with an executed member is recorded on all members. */
  ghost predicate ComponentsRecorded(d: Graph, insts: InstanceMap) {
    && (forall x :: x in insts && insts[x].scc != {} ==> RecordedExactly(d, insts, x))
    && (forall x, y :: IsExecuted(insts, x) && x != y && Mutual(d, x, y) ==>
         RecordedExactly(d, insts, x) && RecordedExactly(d, insts, y))
  }

  ghost predicate Before(log: seq<InstanceID>, a: InstanceID, b: InstanceID) {
    exists i, j :: 0 <= i < j < |log| && log[i] == a && log[j] == b
  }

  /** A dependency runs first, unless the two are in one component and the
      dependency has the larger id. */
  ghost predicate DepsFirst(d: Graph, log: seq<InstanceID>) {
    forall x, w :: x in log && x in d && w in d[x] && w != x ==>
      Before(log, w, x) || (Mutual(d, x, w) && Precedes(x, w))
  }

  /** Within a component instances run in id order, none skipped. */
  ghost predicate ComponentsInIdOrder(d: Graph, log: seq<InstanceID>) {
    forall x, y :: y in log && Mutual(d, x, y) && Precedes(x, y) ==> Before(log, x, y)
  }

  ghost predicate Inv(d: Graph, s: Replica) {
    && CommitsAgree(d, s.instances)
    && ExecutedClosed(d, s.instances)
    && LogIsExact(s)
    && ComponentsRecorded(d, s.instances)
    && DepsFirst(d, s.executed)
    && ComponentsInIdOrder(d, s.executed)
  }

  // ---------- pruning never splits a component ----------

  lemma MutualSym(d: Graph, x: InstanceID, y: InstanceID)
    requires Mutual(d, x, y)
    ensures Mutual(d, y, x)
  {
  }

  /** A vertex between two mutually reachable ones is mutually reachable too. */
  lemma BetweenIsMutual(d: Graph, x: InstanceID, y: InstanceID, z: InstanceID)
    requires Reach(d, x, y) && Reach(d, y, z) && Mutual(d, x, z)
    ensures Mutual(d, x, y) && Mutual(d, y, z)
  {
    hide Reach;
    ReachTrans(d, y, z, x);
    ReachTrans(d, z, x, y);
  }

  /** Next to a graph vertex, a member of its component is in the graph. */
  lemma NextMemberIsAdded(d: Graph, s: Replica, target: InstanceID, added: seq<InstanceID>, x: InstanceID, y: InstanceID)
    requires Inv(d, s) && IsExecutionGraph(s.instances, target, added)
    requires x in added && IsCommitted(s.instances, x) && Edge(d, x, y) && Mutual(d, x, y)
    ensures y in added
  {
    hide Reach, ExecutedClosed, LogIsExact, DepsFirst, ComponentsInIdOrder, IsInsertion;
    var insts := s.instances;
    assert y in insts[x].deps;
    assert AllHandled(insts, insts[target].deps, Elements(added), x);
    assert Handled(insts, insts[target].deps, Elements(added), x, y);
    if y !in added {
      MutualSym(d, x, y);
      assert RecordedExactly(d, insts, x);
      NoDepsNoPath(d, y, x);
      assert false;
    }
  }

  lemma NoDepsNoPath(d: Graph, y: InstanceID, x: InstanceID)
    requires x != y && Reach(d, y, x)
    ensures y in d && d[y] != [] && d[y][0] in d[y]
  {
    var p :| IsPath(d, y, x, p);
  }

  ghost predicate AllCommitted(insts: InstanceMap, added: seq<InstanceID>) {
    forall x :: x in added ==> IsCommitted(insts, x)
  }

  /** A walk inside one component that starts in the graph stays in the graph,
      and is a walk of the graph. */
  lemma {:induction false} MemberPathIsAdded(d: Graph, s: Replica, target: InstanceID, added: seq<InstanceID>, x: InstanceID, y: InstanceID, p: seq<InstanceID>)
    requires Inv(d, s) && IsExecutionGraph(s.instances, target, added) && AllCommitted(s.instances, added)
    requires x in added && IsPath(d, x, y, p) && Mutual(d, x, y)
    ensures y in added && Reach(SubGraph(s.instances, added), x, y)
    decreases |p|
  {
    hide Reach, Inv, IsExecutionGraph;
    var g := SubGraph(s.instances, added);
    if p == [] {
      ReachRefl(g, x);
    } else {
      var z := p[0];
      ReachEdge(d, x, z);
      assert Reach(d, z, y) by { PathIsReach(d, z, y, p[1..]); }
      BetweenIsMutual(d, x, z, y);
      NextMemberIsAdded(d, s, target, added, x, z);
      MemberPathIsAdded(d, s, target, added, z, y, p[1..]);
      EdgeInSubGraph(d, s, added, x, z);
      ReachStep(g, x, z, y);
    }
  }

  lemma PathIsReach(d: Graph, x: InstanceID, y: InstanceID, p: seq<InstanceID>)
    requires IsPath(d, x, y, p)
    ensures Reach(d, x, y)
  {
  }

  lemma EdgeInSubGraph(d: Graph, s: Replica, added: seq<InstanceID>, x: InstanceID, y: InstanceID)
    requires Inv(d, s) && AllCommitted(s.instances, added) && x in added && y in added
    ensures Edge(SubGraph(s.instances, added), x, y) <==> Edge(d, x, y)
  {
    hide Reach, ExecutedClosed, LogIsExact, ComponentsRecorded, DepsFirst, ComponentsInIdOrder;
  }

  /** Once one member of a component is in the graph, all are. */
  lemma ComponentIsAdded(d: Graph, s: Replica, target: InstanceID, added: seq<InstanceID>, x: InstanceID, y: InstanceID)
    requires Inv(d, s) && IsExecutionGraph(s.instances, target, added) && AllCommitted(s.instances, added)
    requires x in added && Mutual(d, x, y)
    ensures y in added && Mutual(SubGraph(s.instances, added), x, y)
  {
    hide Inv, IsExecutionGraph;
    var p :| IsPath(d, x, y, p);
    MemberPathIsAdded(d, s, target, added, x, y, p);
    var q :| IsPath(d, y, x, q);
    MemberPathIsAdded(d, s, target, added, y, x, q);
  }

  lemma {:induction false} SubGraphPath(d: Graph, s: Replica, added: seq<InstanceID>, x: InstanceID, y: InstanceID, p: seq<InstanceID>)
    requires Inv(d, s) && AllCommitted(s.instances, added) && IsPath(SubGraph(s.instances, added), x, y, p)
    ensures Reach(d, x, y)
    decreases |p|
  {
    hide Reach, Inv;
    if p == [] {
      ReachRefl(d, x);
    } else {
      SubGraphPath(d, s, added, p[0], y, p[1..]);
      EdgeInSubGraph(d, s, added, x, p[0]);
      ReachStep(d, x, p[0], y);
    }
  }

  /** The components of the pruned graph are the true components. */
  lemma SubGraphComponents(d: Graph, s: Replica, target: InstanceID, added: seq<InstanceID>, x: InstanceID, y: InstanceID)
    requires Inv(d, s) && IsExecutionGraph(s.instances, target, added) && AllCommitted(s.instances, added)
    requires x in added
    ensures Mutual(d, x, y) <==> y in added && Mutual(SubGraph(s.instances, added), x, y)
  {
    hide Inv, IsExecutionGraph;
    var g := SubGraph(s.instances, added);
    if Mutual(d, x, y) {
      ComponentIsAdded(d, s, target, added, x, y);
    }
    if Mutual(g, x, y) {
      var p :| IsPath(g, x, y, p);
      SubGraphPath(d, s, added, x, y, p);
      var q :| IsPath(g, y, x, q);
      SubGraphPath(d, s, added, y, x, q);
    }
  }

  // ---------- recording components ----------

  /** Recording touches nothing but the recorded components. */
  lemma {:induction false} RecordAllFrame(insts: InstanceMap, comps: seq<seq<InstanceID>>, x: InstanceID)
    ensures RecordAll(insts, comps).Keys == insts.Keys
    ensures x in insts ==> RecordAll(insts, comps)[x] == insts[x].(scc := RecordAll(insts, comps)[x].scc)
  {
    if comps != [] {
      RecordAllFrame(insts, comps[..|comps| - 1], x);
    }
  }

  /** x ends up with its old component or with one of those just recorded. */
  lemma {:induction false} RecordAllSource(insts: InstanceMap, comps: seq<seq<InstanceID>>, x: InstanceID)
    requires x in insts
    ensures x in RecordAll(insts, comps)
    ensures RecordAll(insts, comps)[x].scc == insts[x].scc
         || exists i :: 0 <= i < |comps| && x in comps[i] && RecordAll(insts, comps)[x].scc == Elements(comps[i])
  {
    if comps != [] {
      var n := |comps| - 1;
      RecordAllSource(insts, comps[..n], x);
      if |comps[n]| > 1 && x in comps[n] {
        assert RecordAll(insts, comps)[x].scc == Elements(comps[n]);
      } else {
        assert RecordAll(insts, comps)[x] == RecordAll(insts, comps[..n])[x];
      }
    }
  }

  lemma {:induction false} RecordAllMember(insts: InstanceMap, comps: seq<seq<InstanceID>>, i: nat, x: InstanceID)
    requires DisjointComponents(comps) && i < |comps| && x in comps[i] && x in insts && |comps[i]| > 1
    ensures x in RecordAll(insts, comps) && RecordAll(insts, comps)[x].scc == Elements(comps[i])
  {
    var n := |comps| - 1;
    RecordAllFrame(insts, comps[..n], x);
    if i < n {
      RecordAllMember(insts, comps[..n], i, x);
      assert x !in comps[n];
    }
  }

  lemma {:induction false} RecordAllElsewhere(insts: InstanceMap, comps: seq<seq<InstanceID>>, x: InstanceID)
    requires x in insts && forall i :: 0 <= i < |comps| && x in comps[i] ==> |comps[i]| <= 1
    ensures x in RecordAll(insts, comps) && RecordAll(insts, comps)[x] == insts[x]
  {
    if comps != [] {
      RecordAllElsewhere(insts, comps[..|comps| - 1], x);
    }
  }

  /** Recording gives the members of a component of several exactly that component,
      leaves what is alone in its component as it was, and changes nothing else. */
  lemma RecordingIsExact(insts: InstanceMap, comps: seq<seq<InstanceID>>, x: InstanceID)
    requires DisjointComponents(comps) && x in insts
    ensures x in RecordAll(insts, comps) && RecordAll(insts, comps)[x] == insts[x].(scc := RecordAll(insts, comps)[x].scc)
    ensures forall i, y :: 0 <= i < |comps| && x in comps[i] && |comps[i]| > 1 ==>
      (y in RecordAll(insts, comps)[x].scc <==> y in comps[i])
    ensures (forall i :: 0 <= i < |comps| && x in comps[i] ==> |comps[i]| <= 1) ==> RecordAll(insts, comps)[x] == insts[x]
  {
    hide RecordAll;
    RecordAllFrame(insts, comps, x);
    forall i | 0 <= i < |comps| && x in comps[i] && |comps[i]| > 1 ensures RecordAll(insts, comps)[x].scc == Elements(comps[i]) {
      RecordAllMember(insts, comps, i, x);
    }
    if forall i :: 0 <= i < |comps| && x in comps[i] ==> |comps[i]| <= 1 {
      RecordAllElsewhere(insts, comps, x);
    }
  }

  lemma VertexIsInComponent(g: Graph, comps: seq<seq<InstanceID>>, x: InstanceID) returns (i: nat)
    requires IsReverseTopological(g, comps) && x in g
    ensures i < |comps| && x in comps[i]
  {
    hide Reach, IsComponent, EdgesPointBack;
    assert x in Vertices(comps);
    i :| 0 <= i < |comps| && x in comps[i];
  }

  ghost predicate Ordered(d: Graph, s: Replica, target: InstanceID, r: Run) {
    && Inv(d, s)
    && IsExecutionGraph(s.instances, target, r.added)
    && AllCommitted(s.instances, r.added)
    && IsExecutionOrder(SubGraph(s.instances, r.added), r.comps)
  }

  /** A component of the order is a true component. */
  lemma OrderComponent(d: Graph, s: Replica, target: InstanceID, r: Run, i: nat, x: InstanceID, y: InstanceID)
    requires Ordered(d, s, target, r) && i < |r.comps| && x in r.comps[i]
    ensures x in r.added && IsCommitted(s.instances, x)
    ensures y in r.comps[i] <==> Mutual(d, x, y)
  {
    hide Reach, Inv, IsExecutionGraph, EdgesPointBack;
    var g := SubGraph(s.instances, r.added);
    assert IsComponent(g, r.comps[i]);
    assert x in g && x in r.added;
    SubGraphComponents(d, s, target, r.added, x, y);
  }

  lemma ComponentHasTwo(d: Graph, s: Replica, target: InstanceID, r: Run, i: nat, x: InstanceID, y: InstanceID)
    requires Ordered(d, s, target, r) && i < |r.comps| && x in r.comps[i] && x != y && Mutual(d, x, y)
    ensures |r.comps[i]| > 1
  {
    hide Ordered, Mutual;
    OrderComponent(d, s, target, r, i, x, y);
  }

  lemma RecordedIsExact(d: Graph, s: Replica, target: InstanceID, r: Run, x: InstanceID)
    requires Ordered(d, s, target, r) && x in s.instances
    requires x in RecordAll(s.instances, r.comps)
    ensures RecordAll(s.instances, r.comps)[x].scc == s.instances[x].scc
         || RecordedExactly(d, RecordAll(s.instances, r.comps), x)
  {
    hide Ordered, Mutual;
    RecordAllSource(s.instances, r.comps, x);
    if i :| 0 <= i < |r.comps| && x in r.comps[i] && RecordAll(s.instances, r.comps)[x].scc == Elements(r.comps[i]) {
      forall z ensures z in r.comps[i] <==> Mutual(d, x, z) {
        OrderComponent(d, s, target, r, i, x, z);
      }
    }
  }

  /** After recording, a graph vertex in a component of several carries it. */
  lemma GraphIsRecorded(d: Graph, s: Replica, target: InstanceID, r: Run, x: InstanceID, y: InstanceID)
    requires Ordered(d, s, target, r) && x in r.added && x != y && Mutual(d, x, y)
    ensures RecordedExactly(d, RecordAll(s.instances, r.comps), x)
  {
    hide Mutual, Inv, IsExecutionGraph;
    var i := VertexIsInComponent(SubGraph(s.instances, r.added), r.comps, x);
    ComponentHasTwo(d, s, target, r, i, x, y);
    RecordAllMember(s.instances, r.comps, i, x);
    forall z ensures z in r.comps[i] <==> Mutual(d, x, z) {
      OrderComponent(d, s, target, r, i, x, z);
    }
  }

  lemma RecordKeepsComponents(d: Graph, s: Replica, target: InstanceID, r: Run)
    requires Ordered(d, s, target, r)
    ensures ComponentsRecorded(d, RecordAll(s.instances, r.comps))
  {
    hide Mutual, IsExecutionGraph, IsExecutionOrder, CommitsAgree, ExecutedClosed, LogIsExact, DepsFirst, ComponentsInIdOrder;
    var insts' := RecordAll(s.instances, r.comps);
    forall x ensures insts'.Keys == s.instances.Keys
             ensures x in insts' ==> insts'[x] == s.instances[x].(scc := insts'[x].scc)
             ensures x in insts' ==> insts'[x].scc == s.instances[x].scc || RecordedExactly(d, insts', x)
    {
      RecordAllFrame(s.instances, r.comps, x);
      if x in insts' {
        RecordedIsExact(d, s, target, r, x);
      }
    }
  }

  lemma RecordKeepsInv(d: Graph, s: Replica, target: InstanceID, r: Run)
    requires Ordered(d, s, target, r)
    ensures Inv(d, s.(instances := RecordAll(s.instances, r.comps)))
  {
    hide Mutual, IsExecutionGraph, IsExecutionOrder, ComponentsRecorded, DepsFirst, ComponentsInIdOrder;
    RecordKeepsComponents(d, s, target, r);
    var insts' := RecordAll(s.instances, r.comps);
    forall x ensures insts'.Keys == s.instances.Keys
             ensures x in insts' ==> insts'[x] == s.instances[x].(scc := insts'[x].scc)
    {
      RecordAllFrame(s.instances, r.comps, x);
    }
    assert forall x :: IsExecuted(insts', x) <==> IsExecuted(s.instances, x);
    assert forall x :: IsCommitted(insts', x) <==> IsCommitted(s.instances, x);
  }

  // ---------- executing one instance ----------

  /** Everything that has to come before x has been executed. */
  ghost predicate Ready(d: Graph, s: Replica, x: InstanceID) {
    && IsCommitted(s.instances, x)
    && Grounded(d, s.instances, x)
    && (forall w :: x in d && w in d[x] && w != x ==> w in s.executed || (Mutual(d, x, w) && Precedes(x, w)))
    && (forall y :: Mutual(d, y, x) && Precedes(y, x) ==> y in s.executed)
    && (forall y :: y != x && Mutual(d, x, y) ==> RecordedExactly(d, s.instances, x) && RecordedExactly(d, s.instances, y))
  }

  lemma BeforeAppend(log: seq<InstanceID>, x: InstanceID)
    ensures forall a, b :: Before(log, a, b) ==> Before(log + [x], a, b)
    ensures forall a :: a in log ==> Before(log + [x], a, x)
  {
    var log' := log + [x];
    forall a, b | Before(log, a, b) ensures Before(log', a, b) {
      var i, j :| 0 <= i < j < |log| && log[i] == a && log[j] == b;
      assert log'[i] == a && log'[j] == b;
    }
    forall a | a in log ensures Before(log', a, x) {
      var i :| 0 <= i < |log| && log[i] == a;
      assert log'[i] == a && log'[|log|] == x;
    }
  }

  lemma ApplyKeepsOrder(d: Graph, s: Replica, x: InstanceID)
    requires DepsFirst(d, s.executed) && ComponentsInIdOrder(d, s.executed) && Ready(d, s, x)
    ensures DepsFirst(d, s.executed + [x]) && ComponentsInIdOrder(d, s.executed + [x])
  {
    hide Mutual, Before, Precedes;
    BeforeAppend(s.executed, x);
    assert forall a :: a in s.executed + [x] <==> a in s.executed || a == x;
  }

  lemma ApplyKeepsComponents(d: Graph, s: Replica, x: InstanceID)
    requires ComponentsRecorded(d, s.instances) && Ready(d, s, x)
    ensures ComponentsRecorded(d, Apply(s, x).instances)
  {
    hide Mutual, Precedes;
    var s' := Apply(s, x);
    assert forall y :: RecordedExactly(d, s.instances, y) ==> RecordedExactly(d, s'.instances, y);
  }

  lemma ApplyKeepsLog(s: Replica, x: InstanceID)
    requires LogIsExact(s)
    ensures LogIsExact(Apply(s, x))
  {
    var s' := Apply(s, x);
    if x in s.instances && s.instances[x].status == COMMITTED {
      assert x !in s.executed;
      assert forall a :: a in s'.executed <==> a in s.executed || a == x;
    }
  }

  lemma ApplyKeepsInv(d: Graph, s: Replica, x: InstanceID)
    requires Inv(d, s) && Ready(d, s, x) && s.instances[x].status <= EXECUTED
    ensures Inv(d, Apply(s, x)) && IsExecuted(Apply(s, x).instances, x)
  {
    hide Mutual, Precedes, ComponentsRecorded, DepsFirst, ComponentsInIdOrder, RecordedExactly, LogIsExact;
    ApplyKeepsOrder(d, s, x);
    ApplyKeepsComponents(d, s, x);
    var s' := Apply(s, x);
    assert forall y :: IsExecuted(s'.instances, y) <==> y == x || IsExecuted(s.instances, y);
    assert forall y :: IsCommitted(s'.instances, y) <==> IsCommitted(s.instances, y);
    ApplyKeepsLog(s, x);
  }

  // ---------- executing along the order ----------

  /** Position j of the order lies in some component, with the earlier
      components and the earlier part of that component before it. */
  lemma {:induction false} FlattenAt(comps: seq<seq<InstanceID>>, j: nat) returns (i: nat, q: nat)
    requires j < |Flatten(comps)|
    ensures i < |comps| && q < |comps[i]| && Flatten(comps)[j] == comps[i][q]
    ensures Flatten(comps)[..j] == Flatten(comps[..i]) + comps[i][..q]
  {
    var n := |comps| - 1;
    var front := Flatten(comps[..n]);
    if j < |front| {
      i, q := FlattenAt(comps[..n], j);
      assert comps[..n][..i] == comps[..i];
      assert Flatten(comps)[..j] == front[..j];
    } else {
      i, q := n, j - |front|;
      assert Flatten(comps)[..j] == front + comps[n][..q];
    }
  }

  lemma {:induction false} FlattenMember(comps: seq<seq<InstanceID>>, i: nat, x: InstanceID)
    requires i < |comps| && x in comps[i]
    ensures x in Flatten(comps)
  {
    var n := |comps| - 1;
    if i < n {
      FlattenMember(comps[..n], i, x);
    }
  }

  lemma {:induction false} FlattenSource(comps: seq<seq<InstanceID>>, x: InstanceID) returns (i: nat)
    requires x in Flatten(comps)
    ensures i < |comps| && x in comps[i]
  {
    var n := |comps| - 1;
    if x in comps[n] {
      i := n;
    } else {
      i := FlattenSource(comps[..n], x);
    }
  }

  /** s1 is s part way through a run: components recorded, the first j of the
      order executed. */
  ghost predicate Underway(d: Graph, s: Replica, target: InstanceID, r: Run, s1: Replica, j: nat) {
    && Ordered(d, s, target, r)
    && Inv(d, s1)
    && j <= |Flatten(r.comps)|
    && (forall x :: x in Flatten(r.comps)[..j] ==> x in s1.executed)
    && s.executed <= s1.executed
    && s1.instances.Keys == s.instances.Keys
    && (forall x :: x in s.instances ==>
         && s1.instances[x].scc == RecordAll(s.instances, r.comps)[x].scc
         && s.instances[x].status <= s1.instances[x].status <= EXECUTED)
  }

  lemma StartsUnderway(d: Graph, s: Replica, target: InstanceID, r: Run)
    requires Ordered(d, s, target, r) && StatusesValid(s.instances)
    ensures Underway(d, s, target, r, s.(instances := RecordAll(s.instances, r.comps)), 0)
  {
    hide Inv, IsExecutionGraph, IsExecutionOrder;
    RecordKeepsInv(d, s, target, r);
    forall x ensures RecordAll(s.instances, r.comps).Keys == s.instances.Keys
             ensures x in s.instances ==>
               RecordAll(s.instances, r.comps)[x] == s.instances[x].(scc := RecordAll(s.instances, r.comps)[x].scc)
    {
      RecordAllFrame(s.instances, r.comps, x);
    }
  }

  /** A dependency of a graph vertex is in the graph or was already executed. */
  lemma DepIsAddedOrExecuted(d: Graph, s: Replica, target: InstanceID, added: seq<InstanceID>, x: InstanceID, w: InstanceID)
    requires Inv(d, s) && IsExecutionGraph(s.instances, target, added) && AllCommitted(s.instances, added)
    requires x in added && x in d && w in d[x]
    ensures w in added || w in s.executed
    ensures IsCommitted(s.instances, w) && w in d && w in s.instances[x].deps
  {
    hide Mutual, Reach, ExecutedClosed, ComponentsRecorded, DepsFirst, ComponentsInIdOrder, IsInsertion;
    assert IsCommitted(s.instances, x);
    assert AllHandled(s.instances, s.instances[target].deps, Elements(added), x);
    assert Handled(s.instances, s.instances[target].deps, Elements(added), x, w);
  }

  lemma InOrderPrefix(comps: seq<seq<InstanceID>>, j: nat, i: nat, q: nat, y: InstanceID)
    requires j < |Flatten(comps)| && i < |comps| && q < |comps[i]|
    requires Flatten(comps)[..j] == Flatten(comps[..i]) + comps[i][..q]
    requires InFirst(comps, i, y) || y in comps[i][..q]
    ensures y in Flatten(comps)[..j]
  {
    if i' :| 0 <= i' < i && i' < |comps| && y in comps[i'] {
      assert comps[..i][i'] == comps[i'];
      FlattenMember(comps[..i], i', y);
    }
  }

  /** A smaller member of a sorted component stands earlier in it. */
  lemma SmallerIsEarlier(c: seq<InstanceID>, q: nat, y: InstanceID)
    requires SortedById(c) && q < |c| && y in c && Precedes(y, c[q])
    ensures y in c[..q]
  {
    var k :| 0 <= k < |c| && c[k] == y;
    PrecedesIsStrictTotalOrder(y, c[q], y);
    assert k < q;
    assert c[..q][k] == y;
  }

  lemma NextPredecessorsDone(d: Graph, s: Replica, target: InstanceID, r: Run, s1: Replica, j: nat, y: InstanceID)
    requires Underway(d, s, target, r, s1, j) && j < |Flatten(r.comps)|
    requires Mutual(d, y, Flatten(r.comps)[j]) && Precedes(y, Flatten(r.comps)[j])
    ensures y in s1.executed
  {
    hide Ordered, Inv, Mutual, Precedes;
    var i, q := FlattenAt(r.comps, j);
    var x := r.comps[i][q];
    assert x in r.comps[i];
    MutualSym(d, y, x);
    OrderComponent(d, s, target, r, i, x, y);
    OrderIsSorted(d, s, target, r, i);
    SmallerIsEarlier(r.comps[i], q, y);
    InOrderPrefix(r.comps, j, i, q, y);
  }

  lemma OrderIsSorted(d: Graph, s: Replica, target: InstanceID, r: Run, i: nat)
    requires Ordered(d, s, target, r) && i < |r.comps|
    ensures SortedById(r.comps[i])
  {
    hide Inv, IsExecutionGraph, IsReverseTopological;
  }

  lemma NextDepDone(d: Graph, s: Replica, target: InstanceID, r: Run, s1: Replica, j: nat, w: InstanceID)
    requires Underway(d, s, target, r, s1, j) && j < |Flatten(r.comps)|
    requires Flatten(r.comps)[j] in d && w in d[Flatten(r.comps)[j]] && w != Flatten(r.comps)[j]
    ensures w in s1.executed || (Mutual(d, Flatten(r.comps)[j], w) && Precedes(Flatten(r.comps)[j], w))
    ensures IsCommitted(s1.instances, w)
  {
    hide Inv, IsExecutionGraph, IsReverseTopological, Mutual, Precedes, SortedById, Flatten, RecordAll;
    var i, q := FlattenAt(r.comps, j);
    var x := r.comps[i][q];
    assert x in r.comps[i];
    OrderComponent(d, s, target, r, i, x, w);
    DepIsAddedOrExecuted(d, s, target, r.added, x, w);
    if w in r.added {
      BackInOrder(s, r, i, x, w);
      if w in r.comps[i] {
        PrecedesIsStrictTotalOrder(x, w, x);
        if Precedes(w, x) {
          MutualSym(d, x, w);
          NextPredecessorsDone(d, s, target, r, s1, j, w);
        }
      } else {
        InOrderPrefix(r.comps, j, i, q, w);
      }
    }
  }

  lemma BackInOrder(s: Replica, r: Run, i: nat, x: InstanceID, w: InstanceID)
    requires IsExecutionOrder(SubGraph(s.instances, r.added), r.comps)
    requires i < |r.comps| && x in r.comps[i] && x in r.added && w in r.added
    requires x in s.instances && w in s.instances && w in s.instances[x].deps
    ensures w in r.comps[i] || InFirst(r.comps, i, w)
  {
    hide Mutual;
    var g := SubGraph(s.instances, r.added);
    assert Edge(g, x, w);
    assert InFirst(r.comps, i + 1, w);
  }

  /** All that a graph vertex reaches is committed. */
  lemma {:induction false} GraphIsGrounded(d: Graph, s: Replica, target: InstanceID, added: seq<InstanceID>,
                                           x: InstanceID, y: InstanceID, p: seq<InstanceID>, w: InstanceID)
    requires Inv(d, s) && IsExecutionGraph(s.instances, target, added) && AllCommitted(s.instances, added)
    requires x in added && IsPath(d, x, y, p) && y in d && w in d[y]
    ensures IsCommitted(s.instances, w)
    decreases |p|
  {
    hide Inv, IsExecutionGraph, Reach;
    if p == [] {
      DepIsAddedOrExecuted(d, s, target, added, x, w);
    } else {
      var z := p[0];
      DepIsAddedOrExecuted(d, s, target, added, x, z);
      if z in added {
        GraphIsGrounded(d, s, target, added, z, y, p[1..], w);
      } else {
        PathIsReach(d, z, y, p[1..]);
        ExecutedIsGrounded(d, s, z);
      }
    }
  }

  lemma ExecutedIsGrounded(d: Graph, s: Replica, x: InstanceID)
    requires Inv(d, s) && x in s.executed
    ensures Grounded(d, s.instances, x)
  {
    hide CommitsAgree, ComponentsRecorded, DepsFirst, ComponentsInIdOrder, Grounded;
  }

  lemma NextIsGrounded(d: Graph, s: Replica, target: InstanceID, r: Run, s1: Replica, x: InstanceID)
    requires Ordered(d, s, target, r) && x in r.added
    requires forall y :: IsCommitted(s.instances, y) ==> IsCommitted(s1.instances, y)
    ensures Grounded(d, s1.instances, x)
  {
    hide Inv, IsExecutionGraph, IsExecutionOrder;
    forall y, w | Reach(d, x, y) && y in d && w in d[y] ensures IsCommitted(s1.instances, w) {
      var p :| IsPath(d, x, y, p);
      GraphIsGrounded(d, s, target, r.added, x, y, p, w);
    }
  }

  lemma NextIsReady(d: Graph, s: Replica, target: InstanceID, r: Run, s1: Replica, j: nat)
    requires Underway(d, s, target, r, s1, j) && j < |Flatten(r.comps)|
    ensures Ready(d, s1, Flatten(r.comps)[j])
  {
    hide Ordered, Inv, Mutual, Precedes, Flatten, RecordAll;
    var x := Flatten(r.comps)[j];
    var i, q := FlattenAt(r.comps, j);
    assert x in r.comps[i];
    OrderComponent(d, s, target, r, i, x, x);
    NextIsGrounded(d, s, target, r, s1, x);
    forall w | x in d && w in d[x] && w != x
      ensures w in s1.executed || (Mutual(d, x, w) && Precedes(x, w))
    {
      NextDepDone(d, s, target, r, s1, j, w);
    }
    forall y | Mutual(d, y, x) && Precedes(y, x) ensures y in s1.executed {
      NextPredecessorsDone(d, s, target, r, s1, j, y);
    }
    forall y | y != x && Mutual(d, x, y) ensures RecordedExactly(d, s1.instances, x) && RecordedExactly(d, s1.instances, y) {
      MutualSym(d, x, y);
      OrderComponent(d, s, target, r, i, x, y);
      OrderComponent(d, s, target, r, i, y, x);
      GraphIsRecorded(d, s, target, r, x, y);
      GraphIsRecorded(d, s, target, r, y, x);
    }
  }

  lemma Advance(d: Graph, s: Replica, target: InstanceID, r: Run, s1: Replica, j: nat)
    requires Underway(d, s, target, r, s1, j) && j < |Flatten(r.comps)|
    ensures Underway(d, s, target, r, Apply(s1, Flatten(r.comps)[j]), j + 1)
  {
    hide Ordered, Inv, Mutual, Precedes, Flatten, RecordAll, Ready;
    var x := Flatten(r.comps)[j];
    NextIsReady(d, s, target, r, s1, j);
    assert IsCommitted(s1.instances, x) by { ReadyIsCommitted(d, s1, x); }
    ApplyKeepsInv(d, s1, x);
    ExecutedIsLogged(d, Apply(s1, x), x);
    assert Flatten(r.comps)[..j + 1] == Flatten(r.comps)[..j] + [x];
  }

  lemma ReadyIsCommitted(d: Graph, s: Replica, x: InstanceID)
    requires Ready(d, s, x)
    ensures IsCommitted(s.instances, x)
  {
  }

  lemma ExecutedIsLogged(d: Graph, s: Replica, x: InstanceID)
    requires Inv(d, s)
    ensures x in s.executed <==> IsExecuted(s.instances, x)
  {
    hide CommitsAgree, ExecutedClosed, ComponentsRecorded, DepsFirst, ComponentsInIdOrder;
  }

  lemma {:induction false} PrefixUnderway(d: Graph, s: Replica, target: InstanceID, r: Run, j: nat)
    requires Ordered(d, s, target, r) && StatusesValid(s.instances) && j <= |Flatten(r.comps)|
    ensures Underway(d, s, target, r, ApplyAll(s.(instances := RecordAll(s.instances, r.comps)), Flatten(r.comps)[..j]), j)
  {
    hide Ordered, Underway, Flatten, RecordAll, Apply;
    if j == 0 {
      StartsUnderway(d, s, target, r);
    } else {
      PrefixUnderway(d, s, target, r, j - 1);
      var order := Flatten(r.comps);
      assert order[..j][..j - 1] == order[..j - 1];
      Advance(d, s, target, r, ApplyAll(s.(instances := RecordAll(s.instances, r.comps)), order[..j - 1]), j - 1);
    }
  }

  /** Whatever prefix of its order a run executes, the invariant holds after it. */
  lemma RunKeepsInv(d: Graph, s: Replica, target: InstanceID, r: Run, s': Replica)
    requires Inv(d, s) && StatusesValid(s.instances) && IsRun(s, target, r, s')
    ensures Inv(d, s') && StatusesValid(s'.instances) && s.executed <= s'.executed
  {
    hide IsExecutionGraph, IsExecutionOrder, Inv, Flatten, RecordAll;
    PrefixUnderway(d, s, target, r, r.k);
  }

  // ---------- agreement ----------

  /** a is executed before b wherever both are executed, by this rule alone. */
  ghost predicate RunsFirst(d: Graph, a: InstanceID, b: InstanceID) {
    if Mutual(d, a, b) then Precedes(a, b) else b in d && a in d[b]
  }

  lemma BeforeIsAsymmetric(log: seq<InstanceID>, a: InstanceID, b: InstanceID)
    requires Distinct(log) && Before(log, a, b)
    ensures !Before(log, b, a) && a in log && b in log
  {
  }

  /** In any reachable log the order of two instances joined by a dependency, or
      in one component, is fixed by the committed dependencies and the ids. */
  lemma LogOrderIsFixed(d: Graph, s: Replica, a: InstanceID, b: InstanceID)
    requires Inv(d, s) && a in s.executed && b in s.executed && a != b
    requires (b in d && a in d[b]) || Mutual(d, a, b)
    ensures Before(s.executed, a, b) <==> RunsFirst(d, a, b)
  {
    hide Reach, Precedes, CommitsAgree, ExecutedClosed, ComponentsRecorded, Before;
    PrecedesIsStrictTotalOrder(a, b, a);
    if Mutual(d, a, b) {
      MutualSym(d, a, b);
      if Precedes(a, b) {
        assert Before(s.executed, a, b);
      } else {
        assert Before(s.executed, b, a);
        BeforeIsAsymmetric(s.executed, b, a);
      }
    } else {
      assert !Mutual(d, b, a);
      assert Before(s.executed, a, b);
    }
  }

  /** Two replicas with the same committed dependencies that have both executed
      an instance and one of its direct dependencies did so in the same order. */
  lemma ReplicasAgree(d: Graph, s: Replica, t: Replica, x: InstanceID, w: InstanceID)
    requires Inv(d, s) && Inv(d, t)
    requires x in s.executed && w in s.executed && x in t.executed && w in t.executed
    requires (x in d && w in d[x]) || Mutual(d, x, w)
    ensures Before(s.executed, w, x) <==> Before(t.executed, w, x)
  {
    hide Inv, Before, Precedes, Mutual;
    if x == w {
      SelfIsNotBefore(d, s, x);
      SelfIsNotBefore(d, t, x);
    } else {
      if Mutual(d, x, w) { MutualSym(d, x, w); }
      LogOrderIsFixed(d, s, w, x);
      LogOrderIsFixed(d, t, w, x);
    }
  }

  lemma SelfIsNotBefore(d: Graph, s: Replica, x: InstanceID)
    requires Inv(d, s)
    ensures !Before(s.executed, x, x)
  {
  }
}
