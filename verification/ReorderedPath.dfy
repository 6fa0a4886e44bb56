/** A reachable replica that executes an instance before one it reaches: the
    cycle x -> y -> z -> x is executed only up to y, and then t -> p -> x. */
module ReorderedPath {
  import opened Ids
  import opened Instructions
  import opened Instances
  import opened Graphs
  import opened ExecutionOrder
  import opened Agreement
  import opened Handlers
  import opened Traces
  import opened TransitiveOrder

  datatype Example = Example(x: InstanceID, y: InstanceID, z: InstanceID, p: InstanceID, t: InstanceID, command: Instruction)

  predicate Valid(e: Example) {
    && Precedes(e.x, e.y) && Precedes(e.y, e.z)
    && e.p !in {e.x, e.y, e.z} && e.t !in {e.x, e.y, e.z, e.p}
  }

  function Deps(e: Example): Graph {
    map[e.x := [e.y], e.y := [e.z], e.z := [e.x], e.p := [e.x], e.t := [e.p]]
  }

  function Message(e: Example, id: InstanceID): Instance
    requires id in Deps(e)
  {
    Instance(id, id, [], e.command, Deps(e)[id], COMMITTED, 0, false, false, false, {})
  }

  /** The replica once the listed instances have been committed. */
  function Committed(e: Example, ids: set<InstanceID>): Replica
    requires ids <= Deps(e).Keys
  {
    Replica(map id | id in ids :: Message(e, id), [], [])
  }

  lemma CommitStep(e: Example, ids: set<InstanceID>, id: InstanceID)
    requires ids <= Deps(e).Keys && id in Deps(e) && id !in ids
    ensures Step(Committed(e, ids), Handle(CommitRequest(Message(e, id))), Committed(e, ids + {id}))
  {
    hide Deps;
    assert Next(Committed(e, ids).instances, CommitRequest(Message(e, id))) == Committed(e, ids + {id}).instances;
  }

  lemma CommittedAgrees(e: Example, ids: set<InstanceID>)
    requires ids <= Deps(e).Keys
    ensures CommitsAgree(Deps(e), Committed(e, ids).instances)
  {
    hide Deps;
  }

  function Cycle(e: Example): Run {
    Run([e.y, e.z, e.x], [[e.x, e.y, e.z]], 2)
  }

  lemma Distinctness(e: Example)
    requires Valid(e)
    ensures e.x != e.y && e.y != e.z && e.x != e.z && Precedes(e.x, e.z)
  {
    PrecedesIsStrictTotalOrder(e.x, e.y, e.z);
    PrecedesIsStrictTotalOrder(e.y, e.z, e.y);
  }

  function All(e: Example): Replica {
    Committed(e, Deps(e).Keys)
  }

  lemma AllFacts(e: Example)
    requires Valid(e)
    ensures var m := All(e).instances;
      && e.x in m && e.y in m && e.z in m
      && m[e.x].deps == [e.y] && m[e.y].deps == [e.z] && m[e.z].deps == [e.x]
      && (forall v :: v in m ==> m[v].status == COMMITTED)
  {
    Distinctness(e);
  }

  lemma CycleGraph(e: Example)
    requires Valid(e)
    ensures IsExecutionGraph(All(e).instances, e.y, [e.y, e.z, e.x])
  {
    hide All, Precedes;
    AllFacts(e);
    Distinctness(e);
    var insts := All(e).instances;
    var added := [e.y, e.z, e.x];
    assert added[..1] == [e.y] && added[..2] == [e.y, e.z];
    assert e.y in [e.y] && e.z in insts[e.y].deps;
    assert Discovered(insts, [e.y], e.z);
    assert e.z in [e.y, e.z] && e.x in insts[e.z].deps;
    assert Discovered(insts, [e.y, e.z], e.x);
    assert forall v :: v in added ==> v == e.x || v == e.y || v == e.z;
    assert {e.x, e.y, e.z} <= Elements(added);
  }

  lemma CycleIsStrong(e: Example, u: InstanceID, v: InstanceID)
    requires Valid(e) && u in {e.x, e.y, e.z} && v in {e.x, e.y, e.z}
    ensures Reach(SubGraph(All(e).instances, [e.y, e.z, e.x]), u, v)
  {
    hide Reach, All;
    AllFacts(e);
    Distinctness(e);
    var g := SubGraph(All(e).instances, [e.y, e.z, e.x]);
    assert Edge(g, e.x, e.y) && Edge(g, e.y, e.z) && Edge(g, e.z, e.x);
    ReachEdge(g, e.x, e.y);
    ReachEdge(g, e.y, e.z);
    ReachEdge(g, e.z, e.x);
    ReachTrans(g, e.x, e.y, e.z);
    ReachTrans(g, e.y, e.z, e.x);
    ReachTrans(g, e.z, e.x, e.y);
    ReachRefl(g, u);
  }

  lemma CycleOrder(e: Example)
    requires Valid(e)
    ensures IsExecutionOrder(SubGraph(All(e).instances, [e.y, e.z, e.x]), [[e.x, e.y, e.z]])
  {
    hide Reach, Precedes, All;
    AllFacts(e);
    Distinctness(e);
    var g := SubGraph(All(e).instances, [e.y, e.z, e.x]);
    var c := [e.x, e.y, e.z];
    assert g.Keys == {e.x, e.y, e.z};
    forall u, v | u in c && v in c ensures Mutual(g, u, v) {
      CycleIsStrong(e, u, v);
      CycleIsStrong(e, v, u);
    }
    assert IsComponent(g, c);
    SingleComponent(g, c);
  }

  lemma SingleComponent(g: Graph, c: seq<InstanceID>)
    requires IsComponent(g, c) && g.Keys == Elements(c)
    ensures IsReverseTopological(g, [c])
  {
    hide IsComponent;
    assert [c][0] == c;
    assert Vertices([c]) == Elements(c);
    forall u, v | u in c && Edge(g, u, v) ensures InFirst([c], 1, v) {
      assert v in Elements(c);
    }
  }

  lemma CommitOne(e: Example, ids: set<InstanceID>, id: InstanceID)
    requires ids <= Deps(e).Keys && id in Deps(e) && id !in ids && Reachable(Deps(e), Committed(e, ids))
    ensures Reachable(Deps(e), Committed(e, ids + {id}))
  {
    hide Deps, Committed, Step, Reachable;
    CommitStep(e, ids, id);
    CommittedAgrees(e, ids + {id});
    ReachableStep(Deps(e), Committed(e, ids), Handle(CommitRequest(Message(e, id))), Committed(e, ids + {id}));
  }

  lemma AllIsReachable(e: Example)
    requires Valid(e)
    ensures Reachable(Deps(e), All(e))
  {
    hide Reachable;
    Distinctness(e);
    EmptyIsReachable(Deps(e));
    assert Committed(e, {}) == EMPTY;
    CommitOne(e, {}, e.x);
    CommitOne(e, {} + {e.x}, e.y);
    CommitOne(e, {} + {e.x} + {e.y}, e.z);
    CommitOne(e, {} + {e.x} + {e.y} + {e.z}, e.p);
    CommitOne(e, {} + {e.x} + {e.y} + {e.z} + {e.p}, e.t);
    assert {} + {e.x} + {e.y} + {e.z} + {e.p} + {e.t} == Deps(e).Keys;
  }

  /** The replica after the run on y. */
  function After(e: Example): Replica {
    var s1 := All(e).(instances := RecordAll(All(e).instances, [[e.x, e.y, e.z]]));
    Apply(Apply(s1, e.x), e.y)
  }

  lemma CycleIsRun(e: Example)
    requires Valid(e)
    ensures IsRun(All(e), e.y, Cycle(e), After(e))
  {
    hide All, IsExecutionGraph, IsExecutionOrder, RecordAll, Apply, Precedes;
    AllFacts(e);
    Distinctness(e);
    CycleGraph(e);
    CycleOrder(e);
    var c := [e.x, e.y, e.z];
    assert Flatten([c]) == c by { FlattenOne(c); }
    var s1 := All(e).(instances := RecordAll(All(e).instances, [c]));
    TwoApplied(s1, e.x, e.y);
    assert c[..2] == [e.x, e.y];
  }

  lemma FlattenOne(c: seq<InstanceID>)
    ensures Flatten([c]) == c
  {
    assert |[c][..0]| == 0;
  }

  lemma TwoApplied(s: Replica, a: InstanceID, b: InstanceID)
    ensures ApplyAll(s, [a, b]) == Apply(Apply(s, a), b)
  {
    assert [a, b][..1] == [a] && |[a][..0]| == 0;
    assert ApplyAll(s, [a]) == Apply(s, a);
  }

  lemma AfterIsReachable(e: Example)
    requires Valid(e)
    ensures Reachable(Deps(e), After(e))
  {
    hide All, After, IsRun, Reachable, Deps, Inv, AppliedMatches;
    AllIsReachable(e);
    CycleIsRun(e);
    ReachableSound(Deps(e), All(e));
    RunKeepsInv(Deps(e), All(e), e.y, Cycle(e), After(e));
    assert ExecuteStep(All(e), e.y, After(e));
    InvAgrees(Deps(e), After(e));
    ReachableStep(Deps(e), All(e), Execute(e.y), After(e));
  }

  lemma InvAgrees(d: Graph, s: Replica)
    requires Inv(d, s)
    ensures CommitsAgree(d, s.instances)
  {
  }

  lemma AfterFacts(e: Example)
    requires Valid(e)
    ensures var s := After(e);
      && s.executed == [e.x, e.y]
      && e.t in s.instances && s.instances[e.t] == Message(e, e.t)
      && e.p in s.instances && s.instances[e.p] == Message(e, e.p)
  {
    hide Precedes;
    Distinctness(e);
    var m := All(e).instances;
    var c := [e.x, e.y, e.z];
    assert |[c][..0]| == 0;
    assert RecordAll(m, [c]) == RecordComponent(m, c);
    assert RecordAll(m, [c])[e.x].status == COMMITTED && RecordAll(m, [c])[e.y].status == COMMITTED;
  }

  /** Any five ids can play the parts, once three of them are sorted. */
  lemma ExampleExists(a: InstanceID, b: InstanceID, c: InstanceID, p: InstanceID, t: InstanceID, command: Instruction) returns (e: Example)
    requires a != b && a != c && b != c && p !in {a, b, c} && t !in {a, b, c, p}
    ensures Valid(e) && {e.x, e.y, e.z} == {a, b, c} && e.p == p && e.t == t
  {
    hide Precedes;
    PrecedesIsStrictTotalOrder(a, b, c);
    PrecedesIsStrictTotalOrder(a, c, b);
    PrecedesIsStrictTotalOrder(b, c, a);
    var (lo, hi) := if Precedes(a, b) then (a, b) else (b, a);
    e := if Precedes(c, lo) then Example(c, lo, hi, p, t, command)
         else if Precedes(c, hi) then Example(lo, c, hi, p, t, command)
         else Example(lo, hi, c, p, t, command);
  }

  /** A replica can get to where x is executed and may be left out while z,
      which x reaches, is not executed. A run on t can then complete, and each
      that does executes p, which reaches z, without z. */
  lemma PathOrderFails(e: Example)
    requires Valid(e)
    ensures Reachable(Deps(e), After(e)) && Chain(Deps(e), After(e), e.t, e.p, e.x)
    ensures Reach(Deps(e), e.p, e.z) && !Mutual(Deps(e), e.p, e.z) && e.z !in After(e).executed
    ensures forall r, s' :: IsRun(After(e), e.t, r, s') && Completes(After(e), e.t, r) ==>
              e.p in s'.executed && e.z !in s'.executed
    ensures exists r, s' :: IsRun(After(e), e.t, r, s') && Completes(After(e), e.t, r) && !PathsInOrder(Deps(e), s'.executed, e.p)
  {
    hide IsRun, Completes, Inv, AppliedMatches, Reach, Reachable, After, Precedes;
    var d, s := Deps(e), After(e);
    Distinctness(e);
    AfterIsReachable(e);
    ReachableSound(d, s);
    AfterFacts(e);
    assert Edge(d, e.p, e.x) && Edge(d, e.x, e.y) && Edge(d, e.y, e.z);
    ReachEdge(d, e.y, e.z);
    ReachStep(d, e.x, e.y, e.z);
    ReachStep(d, e.p, e.x, e.z);
    assert Chain(d, s, e.t, e.p, e.x);
    ChainIsAcyclic(d, s, e.t, e.p, e.x);
    if Reach(d, e.z, e.p) {
      ReachTrans(d, e.x, e.z, e.p);
    }
    forall r, s' | IsRun(s, e.t, r, s') && Completes(s, e.t, r) ensures e.p in s'.executed && e.z !in s'.executed {
      ChainExecutesOnlyItself(d, s, e.t, e.p, e.x, r, s', e.p);
      ChainExecutesOnlyItself(d, s, e.t, e.p, e.x, r, s', e.z);
    }
    var r, s' := ChainHasRun(d, s, e.t, e.p, e.x);
    OutOfOrder(d, s'.executed, e.p, e.z);
  }

  lemma OutOfOrder(d: Graph, log: seq<InstanceID>, x: InstanceID, y: InstanceID)
    requires Reach(d, x, y) && y != x && !Mutual(d, x, y) && y !in log
    ensures !PathsInOrder(d, log, x)
  {
    hide Reach, Mutual;
    assert !InOrder(d, log, x, y);
  }
}
