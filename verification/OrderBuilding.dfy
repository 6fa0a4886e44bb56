/** The graph-building closure addInstance inside getExecutionOrder. */
module OrderBuilding {
  import opened Options
  import opened Ids
  import opened Instances
  import opened Graphs
  import opened ExecutionOrder

  /** The dependencies of an executed instance are known, so looking up their
      status never meets a missing instance. */
  ghost predicate ExecutedDepsKnown(insts: InstanceMap) {
    forall x, e :: IsExecuted(insts, x) && e in insts[x].deps ==> e in insts
  }

  /** What every reachable replica guarantees before ordering starts. */
  ghost predicate Orderable(insts: InstanceMap) {
    ExecutedDepsKnown(insts) && StatusesValid(insts)
  }

  /** x is executed and nothing connects it to the graph. */
  ghost predicate LeftOut(insts: InstanceMap, targetDeps: seq<InstanceID>, before: seq<InstanceID>, x: InstanceID) {
    x in insts && !Wanted(insts, targetDeps, before, x)
  }

  /** What keeps an instance out of the graph, said outright: it is executed and no
      dependency of the target, each of its dependencies is executed, outside the
      graph and no dependency of the target, and unless it has none, no component
      recorded on a vertex names it. */
  lemma LeftOutMeans(insts: InstanceMap, targetDeps: seq<InstanceID>, before: seq<InstanceID>, x: InstanceID)
    requires Orderable(insts) && x in insts
    ensures LeftOut(insts, targetDeps, before, x) <==>
      && insts[x].status == EXECUTED && x !in targetDeps
      && (forall e :: e in insts[x].deps ==> e in insts && insts[e].status == EXECUTED && e !in before && e !in targetDeps)
      && (insts[x].deps != [] ==> forall y :: y in before && y in insts ==> x !in insts[y].scc)
  {
    if insts[x].deps != [] {
      assert insts[x].deps[0] in insts[x].deps;
    }
    if LeftOut(insts, targetDeps, before, x) {
      forall e | e in insts[x].deps ensures !Connects(insts, targetDeps, before, x, e) {
      }
    }
  }

  lemma LeftOutIsSkippable(insts: InstanceMap, targetDeps: seq<InstanceID>, before: seq<InstanceID>, v: InstanceID, x: InstanceID)
    requires LeftOut(insts, targetDeps, before, x) && v in before && v in insts
    ensures Skippable(insts, targetDeps, v, x)
  {
    forall e | e in insts[x].deps ensures IsExecuted(insts, e) && e !in targetDeps {
      assert !Connects(insts, targetDeps, before, x, e);
    }
    if insts[x].deps != [] {
      assert insts[x].deps[0] in insts[x].deps;
      assert !Connects(insts, targetDeps, before, x, insts[x].deps[0]);
      assert !Required(insts, before, x);
    }
  }

  /** Every vertex added at position n or later has all its dependencies handled. */
  ghost predicate HandledFrom(insts: InstanceMap, targetDeps: seq<InstanceID>, added: seq<InstanceID>, n: nat) {
    forall k :: n <= k < |added| ==> AllHandled(insts, targetDeps, Elements(added), added[k])
  }

  lemma HandledGrows(insts: InstanceMap, targetDeps: seq<InstanceID>, added: seq<InstanceID>, added': seq<InstanceID>, n: nat)
    requires added <= added' && HandledFrom(insts, targetDeps, added, n)
    requires HandledFrom(insts, targetDeps, added', |added|)
    ensures HandledFrom(insts, targetDeps, added', n)
  {
    hide Skippable;
    assert Elements(added) <= Elements(added');
    forall k | n <= k < |added'| ensures AllHandled(insts, targetDeps, Elements(added'), added'[k]) {
      if k < |added| {
        assert AllHandled(insts, targetDeps, Elements(added), added[k]);
      }
    }
  }

  /** The first i dependencies of v have been handled. */
  ghost predicate DepsHandled(insts: InstanceMap, targetDeps: seq<InstanceID>, added: seq<InstanceID>, v: InstanceID, i: nat) {
    v in insts && forall k :: 0 <= k < i && k < |insts[v].deps| ==>
      Handled(insts, targetDeps, Elements(added), v, insts[v].deps[k])
  }

  lemma DepsHandledGrows(insts: InstanceMap, targetDeps: seq<InstanceID>, added: seq<InstanceID>, added': seq<InstanceID>, v: InstanceID, i: nat)
    requires added <= added' && DepsHandled(insts, targetDeps, added, v, i)
    ensures DepsHandled(insts, targetDeps, added', v, i)
  {
    hide Skippable;
    assert Elements(added) <= Elements(added');
  }

  ghost function Remaining(insts: InstanceMap, g: Graph): nat {
    |insts.Keys - g.Keys|
  }

  lemma FewerRemaining(insts: InstanceMap, g: Graph, g': Graph, v: InstanceID)
    requires g.Keys <= g'.Keys && v in insts && v in g' && v !in g
    ensures Remaining(insts, g') < Remaining(insts, g)
  {
    assert insts.Keys - g'.Keys <= (insts.Keys - g.Keys) - {v};
    SubsetIsNoLarger(insts.Keys - g'.Keys, (insts.Keys - g.Keys) - {v});
  }

  lemma InsertionShrinks(insts: InstanceMap, added: seq<InstanceID>, v: InstanceID)
    requires v in insts && v !in SubGraph(insts, added)
    ensures Remaining(insts, SubGraph(insts, added + [v])) < Remaining(insts, SubGraph(insts, added))
  {
    FewerRemaining(insts, SubGraph(insts, added), SubGraph(insts, added + [v]), v);
  }

  lemma AppendIsInsertion(insts: InstanceMap, targetDeps: seq<InstanceID>, target: InstanceID, added: seq<InstanceID>, x: InstanceID)
    requires IsInsertion(insts, targetDeps, target, added) && x in insts && x !in added
    requires Wanted(insts, targetDeps, added, x)
    requires if added == [] then x == target else Discovered(insts, added, x)
    ensures IsInsertion(insts, targetDeps, target, added + [x])
  {
    hide Wanted, Discovered;
    var added' := added + [x];
    forall i | 0 <= i < |added'|
      ensures Wanted(insts, targetDeps, added'[..i], added'[i])
      ensures i > 0 ==> Discovered(insts, added'[..i], added'[i])
    {
      if i < |added| {
        assert added'[..i] == added[..i];
      } else {
        assert added'[..i] == added;
      }
    }
  }

  lemma RequiredGrows(insts: InstanceMap, added: seq<InstanceID>, v: InstanceID, x: InstanceID)
    requires v in insts
    ensures Required(insts, added + [v], x) <==> Required(insts, added, x) || x in insts[v].scc
  {
    if y :| y in added && y in insts && x in insts[y].scc {
      assert y in added + [v];
    }
    assert v in added + [v];
  }

  class OrderBuilder {
    const insts: InstanceMap
    const targetDeps: seq<InstanceID>
    var depGraph: Graph
    var uncommitted: set<InstanceID>
    var required: set<InstanceID>
    ghost var added: seq<InstanceID>

    constructor (insts: InstanceMap, targetDeps: seq<InstanceID>)
      ensures this.insts == insts && this.targetDeps == targetDeps
      ensures added == [] && depGraph == map[] && uncommitted == {} && required == {}
    {
      this.insts, this.targetDeps := insts, targetDeps;
      depGraph, uncommitted, required, added := map[], {}, {}, [];
    }

    ghost predicate Valid(target: InstanceID)
      reads this
    {
      && IsInsertion(insts, targetDeps, target, added)
      && depGraph == SubGraph(insts, added)
      && (forall x :: x in uncommitted <==> x in added && x in insts && insts[x].status < COMMITTED)
      && (forall x :: x in required <==> Required(insts, added, x))
    }

    /** The loop that decides whether an executed instance is connected. */
    method IsConnected(x: InstanceID, ghost target: InstanceID) returns (connected: bool)
      requires Valid(target) && IsExecuted(insts, x) && ExecutedDepsKnown(insts)
      ensures connected <==> exists e :: e in insts[x].deps && Connects(insts, targetDeps, added, x, e)
      ensures connected <==>
        exists e :: e in insts[x].deps && (e in depGraph || insts[e].status < EXECUTED || e in targetDeps || x in required)
    {
      hide IsInsertion;
      connected := false;
      for k := 0 to |insts[x].deps|
        invariant connected <==> exists e :: e in insts[x].deps[..k] && Connects(insts, targetDeps, added, x, e)
      {
        var dep := insts[x].deps[k];
        var exists_ := dep in depGraph;
        var notExecuted := insts[dep].status < EXECUTED;
        var targetDep := dep in targetDeps;
        var isRequired := x in required;
        assert Connects(insts, targetDeps, added, x, dep) <==> exists_ || notExecuted || targetDep || isRequired;
        connected := connected || exists_ || notExecuted || targetDep || isRequired;
        assert insts[x].deps[..k + 1] == insts[x].deps[..k] + [dep];
        assert dep in insts[x].deps[..k + 1];
        assert forall e :: e in insts[x].deps[..k] ==> e in insts[x].deps[..k + 1];
      }
      assert insts[x].deps[..|insts[x].deps|] == insts[x].deps;
    }

    /** Puts v in the graph. */
    method Insert(v: InstanceID, ghost target: InstanceID)
      requires Valid(target) && v in insts && v !in depGraph
      requires Wanted(insts, targetDeps, added, v)
      requires if added == [] then v == target else Discovered(insts, added, v)
      modifies this
      ensures Valid(target) && added == old(added) + [v]
    {
      hide IsInsertion, Wanted, Discovered, Required;
      assert v !in added;
      AppendIsInsertion(insts, targetDeps, target, added, v);
      forall x ensures Required(insts, added + [v], x) <==> Required(insts, added, x) || x in insts[v].scc {
        RequiredGrows(insts, added, v, x);
      }
      if insts[v].status < COMMITTED {
        uncommitted := uncommitted + {v};
      }
      required := required + insts[v].scc;
      depGraph := depGraph[v := insts[v].deps];
      added := added + [v];
    }

    method AddInstance(v: InstanceID, ghost target: InstanceID) returns (err: Option<InstanceID>)
      requires Valid(target) && Orderable(insts) && v in insts && v !in depGraph
      requires if added == [] then v == target else Discovered(insts, added, v)
      modifies this
      ensures Valid(target) && old(added) <= added
      ensures err.None? ==> HandledFrom(insts, targetDeps, added, |old(added)|)
      ensures err.None? ==> v in added || (LeftOut(insts, targetDeps, old(added), v) && added == old(added))
      ensures LeftOut(insts, targetDeps, old(added), v) ==> added == old(added)
      ensures err.Some? ==> err.value !in insts && Discovered(insts, added, err.value)
      decreases Remaining(insts, depGraph), 1
    {
      hide IsInsertion, Discovered, Required, Connects, AllHandled, Remaining, SubGraph;
      if insts[v].status == EXECUTED && v !in targetDeps {
        var connected := IsConnected(v, target);
        if !connected {
          return None;
        }
      }
      ghost var n := |added|;
      ghost var before := added;
      Insert(v, target);
      InsertionShrinks(insts, before, v);
      err := AddDeps(v, n, target);
    }

    /** One dependency of v, which is already in the graph. */
    method AddDep(v: InstanceID, k: nat, ghost n: nat, ghost target: InstanceID) returns (err: Option<InstanceID>)
      requires Valid(target) && Orderable(insts) && v in insts && k < |insts[v].deps| && v in added
      requires HandledFrom(insts, targetDeps, added, n) && DepsHandled(insts, targetDeps, added, v, k)
      modifies this
      ensures Valid(target) && old(added) <= added
      ensures err.None? ==> HandledFrom(insts, targetDeps, added, n) && DepsHandled(insts, targetDeps, added, v, k + 1)
      ensures err.Some? ==> err.value !in insts && Discovered(insts, added, err.value)
      decreases Remaining(insts, depGraph), 2
    {
      hide IsInsertion, Required, Wanted, AllHandled, Remaining, Skippable;
      ghost var before := added;
      var e := insts[v].deps[k];
      if e in depGraph {
        return None;
      }
      assert Discovered(insts, added, e);
      if e !in insts {
        return Some(e);
      }
      err := AddInstance(e, target);
      if err.None? {
        HandledGrows(insts, targetDeps, before, added, n);
        DepsHandledGrows(insts, targetDeps, before, added, v, k);
        if e !in added {
          LeftOutIsSkippable(insts, targetDeps, before, v, e);
        }
      }
    }

    /** The loop over the dependencies of v, which has just been inserted. */
    method AddDeps(v: InstanceID, ghost n: nat, ghost target: InstanceID) returns (err: Option<InstanceID>)
      requires Valid(target) && Orderable(insts) && v in insts
      requires |added| == n + 1 && added[n] == v
      modifies this
      ensures Valid(target) && old(added) <= added
      ensures err.None? ==> HandledFrom(insts, targetDeps, added, n)
      ensures err.Some? ==> err.value !in insts && Discovered(insts, added, err.value)
      decreases Remaining(insts, depGraph), 3
    {
      hide IsInsertion, Required, Wanted, Handled, AllHandled, Remaining, DepsHandled, SubGraph, ExecutedDepsKnown;
      ghost var start := added;
      NothingHandledYet(insts, targetDeps, added, v);
      for k := 0 to |insts[v].deps|
        invariant Valid(target) && start <= added
        invariant HandledFrom(insts, targetDeps, added, n + 1)
        invariant DepsHandled(insts, targetDeps, added, v, k)
      {
        RemainingShrinks(insts, start, added);
        err := AddDep(v, k, n + 1, target);
        if err.Some? {
          return err;
        }
      }
      AllDepsHandled(insts, targetDeps, added, v, n);
      return None;
    }
  }

  lemma NothingHandledYet(insts: InstanceMap, targetDeps: seq<InstanceID>, added: seq<InstanceID>, v: InstanceID)
    requires v in insts
    ensures DepsHandled(insts, targetDeps, added, v, 0)
  {
  }

  lemma AllDepsHandled(insts: InstanceMap, targetDeps: seq<InstanceID>, added: seq<InstanceID>, v: InstanceID, n: nat)
    requires v in insts && DepsHandled(insts, targetDeps, added, v, |insts[v].deps|)
    requires n < |added| && added[n] == v && HandledFrom(insts, targetDeps, added, n + 1)
    ensures HandledFrom(insts, targetDeps, added, n)
  {
    hide Handled;
  }

  lemma RemainingShrinks(insts: InstanceMap, added: seq<InstanceID>, added': seq<InstanceID>)
    requires added <= added'
    ensures Remaining(insts, SubGraph(insts, added')) <= Remaining(insts, SubGraph(insts, added))
  {
    assert insts.Keys - SubGraph(insts, added').Keys <= insts.Keys - SubGraph(insts, added).Keys;
    SubsetIsNoLarger(insts.Keys - SubGraph(insts, added').Keys, insts.Keys - SubGraph(insts, added).Keys);
  }
}
