/** The manager: ordering and executing committed instances. */
module Managers {
  import opened Options
  import opened Ids
  import opened Instructions
  import opened Instances
  import opened Graphs
  import opened ExecutionOrder
  import opened OrderBuilding
  import opened Handlers
  import opened Agreement
  import opened Recovery
  import opened Traces
  import opened DependencyTrie
  import opened DependencyRuns
  import opened DependencyManagers
  import opened IndexedRuns
  import Tarjan

  // ---------- sorting a component ----------

  method InsertSorted(s: seq<InstanceID>, x: InstanceID) returns (r: seq<InstanceID>)
    requires SortedById(s) && x !in s
    ensures SortedById(r) && |r| == |s| + 1
    ensures forall y :: y in r <==> y in s || y == x
  {
    hide Precedes;
    var k := 0;
    while k < |s| && Precedes(s[k], x)
      invariant k <= |s|
      invariant forall i :: 0 <= i < k ==> Precedes(s[i], x)
    {
      k := k + 1;
    }
    r := s[..k] + [x] + s[k..];
    assert s == s[..k] + s[k..];
    forall i | k <= i < |s| ensures Precedes(x, s[i]) {
      PrecedesIsStrictTotalOrder(s[k], x, s[k]);
      PrecedesIsStrictTotalOrder(x, s[k], s[i]);
    }
  }

  /** sort.Sort with an iidSorter. */
  method SortIds(c: seq<InstanceID>) returns (r: seq<InstanceID>)
    requires Distinct(c)
    ensures SortedById(r) && SameMembers(r, c) && |r| == |c|
  {
    hide SortedById;
    EmptyIsSorted();
    r := [];
    for i := 0 to |c|
      invariant SortedById(r) && |r| == i
      invariant forall y :: y in r <==> y in c[..i]
    {
      assert c[..i + 1] == c[..i] + [c[i]];
      r := InsertSorted(r, c[i]);
    }
    assert c[..|c|] == c;
  }

  lemma NothingRecorded(m: InstanceMap)
    ensures SameComponents([], []) && Flatten([]) == [] && RecordAll(m, []) == m
  {
  }

  lemma SameOneMore(sorted: seq<seq<InstanceID>>, comps: seq<seq<InstanceID>>, k: nat, scc: seq<InstanceID>)
    requires k < |comps| && SameComponents(sorted, comps[..k])
    requires SortedById(scc) && SameMembers(scc, comps[k]) && |scc| == |comps[k]|
    ensures SameComponents(sorted + [scc], comps[..k + 1])
  {
    hide SortedById, SameMembers;
    assert comps[..k + 1] == comps[..k] + [comps[k]];
  }

  lemma EmptyIsSorted()
    ensures SortedById([])
  {
  }

  lemma SortedIsDistinct(c: seq<InstanceID>)
    requires SortedById(c)
    ensures Distinct(c)
  {
    forall i, j | 0 <= i < j < |c| ensures c[i] != c[j] {
      PrecedesIsStrictTotalOrder(c[i], c[j], c[i]);
    }
  }

  ghost predicate SameComponents(a: seq<seq<InstanceID>>, b: seq<seq<InstanceID>>) {
    |a| == |b| && forall i :: 0 <= i < |a| ==> SortedById(a[i]) && SameMembers(a[i], b[i]) && |a[i]| == |b[i]|
  }

  /** Sorting inside the components leaves them a reverse topological order. */
  lemma SortedOrder(g: Graph, sorted: seq<seq<InstanceID>>, comps: seq<seq<InstanceID>>)
    requires IsReverseTopological(g, comps) && SameComponents(sorted, comps)
    ensures IsExecutionOrder(g, sorted)
  {
    hide Mutual, Precedes, SortedById;
    forall i | 0 <= i < |sorted| ensures IsComponent(g, sorted[i]) {
      SortedIsDistinct(sorted[i]);
      assert IsComponent(g, comps[i]);
      assert comps[i][0] in sorted[i];
    }
    forall x ensures x in Vertices(sorted) <==> x in Vertices(comps) {
      if i :| 0 <= i < |sorted| && x in sorted[i] { assert x in comps[i]; }
      if i :| 0 <= i < |comps| && x in comps[i] { assert x in sorted[i]; }
    }
    SortedPointsBack(g, sorted, comps);
  }

  lemma SortedPointsBack(g: Graph, sorted: seq<seq<InstanceID>>, comps: seq<seq<InstanceID>>)
    requires EdgesPointBack(g, comps) && SameComponents(sorted, comps)
    ensures EdgesPointBack(g, sorted)
  {
    hide Edge, SortedById;
    forall i, x, y | 0 <= i < |sorted| && x in sorted[i] && Edge(g, x, y) ensures InFirst(sorted, i + 1, y) {
      assert x in comps[i];
      var j :| 0 <= j < i + 1 && j < |comps| && y in comps[j];
      assert y in sorted[j];
    }
  }

  // ---------- the manager ----------

  datatype Ordering =
    | UnknownInstance(id: InstanceID)
    | Order(ids: seq<InstanceID>, uncommitted: set<InstanceID>)

  datatype Outcome = Done | StoreFailed | Blocked(uncommitted: set<InstanceID>) | Missing(id: InstanceID)

  datatype PreAcceptResponse = PreAcceptResponse(accepted: bool, ballot: Ballot, instance: Instance, missing: seq<Instance>)

  datatype AcceptResponse = AcceptResponse(accepted: bool, ballot: Ballot)

  /** How a prepare goes on: retry later, or start at the phase of a status. */
  datatype Decision = Retry | Start(phase: Status, instance: Instance)

  class Manager {
    var instances: InstanceMap
    var executed: seq<InstanceID>
    var applied: seq<Instruction>
    const index: DependencyManager
    ghost var calls: seq<Call>  // all calls made on the index

    constructor ()
      ensures Valid() && fresh(index.root.Repr)
      ensures View() == Replica(map[], [], []) && calls == []
    {
      instances, executed, applied := map[], [], [];
      index := new DependencyManager();
      calls := [];
    }

    /** The index is what the calls made so far make of it. */
    ghost predicate Valid()
      reads this`calls, index.root, index.root.Repr
    {
      index.root.Valid() && index.root.node.sub == After(calls)
    }

    /** Makes one call on the dependency index. */
    method Report(c: Call) returns (deps: IdSet)
      requires Valid() && c.keys != []
      modifies this`calls, index.root.Repr
      ensures Valid() && fresh(index.root.Repr - old(index.root.Repr))
      ensures calls == old(calls) + [c] && deps == Returned(After(old(calls)), c)
    {
      hide Perform, Returned;
      var _, returned := index.Call(c);
      deps := returned;
      calls := calls + [c];
      AfterOneMore(old(calls), c);
    }

    function View(): Replica
      reads this
    {
      Replica(instances, executed, applied)
    }

    /** recordSCC on every member of a component. */
    method RecordScc(scc: seq<InstanceID>)
      requires |scc| > 1 && forall x :: x in scc ==> x in instances
      modifies this`instances
      ensures instances == RecordComponent(old(instances), scc)
    {
      var component := set x | x in scc;
      for k := 0 to |scc|
        invariant instances.Keys == old(instances).Keys
        invariant forall x :: x in instances ==>
          instances[x] == if x in scc[..k] then old(instances)[x].(scc := Elements(scc)) else old(instances)[x]
      {
        assert scc[..k + 1] == scc[..k] + [scc[k]];
        assert component == Elements(scc);
        instances := instances[scc[k] := instances[scc[k]].(scc := component)];
      }
      assert scc[..|scc|] == scc;
    }

    /** Sorts each component, and records it when nothing is uncommitted. */
    method SortAndRecord(comps: seq<seq<InstanceID>>, hasUncommitted: bool) returns (order: seq<InstanceID>, ghost sorted: seq<seq<InstanceID>>)
      requires forall i :: 0 <= i < |comps| ==> Distinct(comps[i])
      requires forall i, x :: 0 <= i < |comps| && x in comps[i] ==> x in instances
      modifies this`instances
      ensures SameComponents(sorted, comps) && order == Flatten(sorted)
      ensures instances == if hasUncommitted then old(instances) else RecordAll(old(instances), sorted)
    {
      hide Distinct, SortedById, RecordComponent, RecordAll, Flatten, SameComponents;
      order, sorted := [], [];
      NothingRecorded(instances);
      for k := 0 to |comps|
        invariant SameComponents(sorted, comps[..k]) && order == Flatten(sorted)
        invariant instances == if hasUncommitted then old(instances) else RecordAll(old(instances), sorted)
        invariant instances.Keys == old(instances).Keys
      {
        var scc := SortIds(comps[k]);
        ghost var before := sorted;
        sorted := sorted + [scc];
        SameOneMore(before, comps, k, scc);
        order := order + scc;
        RecordOne(old(instances), before, scc);
        if |scc| > 1 && !hasUncommitted {
          RecordScc(scc);
        }
      }
      assert comps[..|comps|] == comps;
    }

    /** The order in which to execute the dependencies of the target, and the
        uncommitted instances that first have to be settled. */
    method GetExecutionOrder(target: InstanceID) returns (res: Ordering, ghost r: Run)
      requires target in instances && Orderable(instances)
      modifies this`instances
      ensures res.UnknownInstance? ==> instances == old(instances) && IsUnknown(instances, target, r.added, res.id)
      ensures res.Order? ==> IsOrdering(old(instances), target, res, r)
      ensures res.Order? ==>
        instances == if res.uncommitted == {} then RecordAll(old(instances), r.comps) else old(instances)
    {
      hide IsInsertion, AllHandled, IsComponent, EdgesPointBack, SameComponents, IsExecutionOrder, Distinct;
      r := Run([], [], 0);
      var b := new OrderBuilder(instances, instances[target].deps);
      EmptyInsertion(instances, instances[target].deps, target);
      var err := b.AddInstance(target, target);
      if err.Some? {
        r := r.(added := b.added);
        return UnknownInstance(err.value), r;
      }
      BuiltGraph(instances, target, b.added);
      var tSorted := Tarjan.TarjanConnect(b.depGraph);
      ComponentsAreKnown(instances, b.added, tSorted);
      var order, sorted := SortAndRecord(tSorted, b.uncommitted != {});
      SortedOrder(b.depGraph, sorted, tSorted);
      r := Run(b.added, sorted, 0);
      res := Order(order, b.uncommitted);
    }

    /** Runs one instance against the store; storeFails says whether the store
        would report an error. */
    method ApplyInstance(id: InstanceID, storeFails: bool) returns (ok: bool)
      requires Valid() && id in instances && instances[id].status <= EXECUTED
      modifies this, index.root.Repr
      ensures Valid() && fresh(index.root.Repr - old(index.root.Repr))
      ensures calls == if ok then old(calls) + AppliedCalls(old(instances), id) else old(calls)
      ensures ok <==> !IsStuck(old(instances)[id], storeFails)
      ensures ok <==> var i := old(instances)[id];
        i.status == EXECUTED || (i.status == COMMITTED && (i.noop || !storeFails))
      ensures View() == if ok then Apply(old(View()), id) else old(View())
      ensures ok && old(instances)[id].status == COMMITTED ==>
        && instances == old(instances)[id := old(instances)[id].(status := EXECUTED)] && executed == old(executed) + [id]
        && applied == old(applied) + if old(instances)[id].noop then [] else [old(instances)[id].command]
    {
      hide After, Elements;
      if instances[id].status == EXECUTED {
        return true;
      } else if instances[id].status != COMMITTED {
        return false;
      }
      if !instances[id].noop {
        if storeFails {
          return false;
        }
        applied := applied + [instances[id].command];
      }
      instances := instances[id := instances[id].(status := EXECUTED)];
      executed := executed + [id];
      var _ := Report(Executed(KeysOf(instances[id]), id, Elements(instances[id].deps)));
      return true;
    }

    method ExecuteDependencyChain(ids: seq<InstanceID>, target: InstanceID, storeFails: InstanceID -> bool) returns (ok: bool, ghost k: nat)
      requires Valid() && StatusesValid(instances) && forall x :: x in ids ==> x in instances
      modifies this, index.root.Repr
      ensures Valid() && fresh(index.root.Repr - old(index.root.Repr))
      ensures old(executed) <= executed && calls == old(calls) + ExecutedCalls(old(instances), executed[|old(executed)|..])
      ensures StopsAtTarget(old(instances), ids, target, k)
      ensures View() == ApplyAll(old(View()), ids[..k])
      ensures ok ==> k == |ids| || (!IsExecuted(old(instances), target) && 0 < k && ids[k - 1] == target)
      ensures !ok ==> k < |ids| && IsStuck(old(instances)[ids[k]], storeFails(ids[k]))
      ensures StoreTook(old(instances), executed[|old(executed)|..], storeFails)
    {
      hide Apply, ApplyAll, IsStuck, Valid, ExecutedCalls, AppliedCalls, StatusesValid, IsExecuted, Along, NotYet, StoreTook;
      AlongStarts(View(), calls, ids, target);
      TookNothing(instances, executed, storeFails);
      k := 0;
      for i := 0 to |ids|
        invariant k == i && Valid() && fresh(index.root.Repr - old(index.root.Repr))
        invariant Along(old(View()), old(calls), ids, i, View(), calls) && NotYet(old(View()), ids, target, i, View())
        invariant |old(executed)| <= |executed| && StoreTook(old(instances), executed[|old(executed)|..], storeFails)
      {
        var id := ids[i];
        ghost var s, c := View(), calls;
        AlongMeans(old(View()), old(calls), ids, target, i, s, c, storeFails(id));
        AlongStep(old(View()), old(calls), ids, target, i, s, c);
        TookOneMore(old(View()), old(calls), ids, i, s, c, storeFails);
        if instances[id].status == COMMITTED {
          ok := ApplyInstance(id, storeFails(id));
          if !ok {
            return;
          }
          k := i + 1;
        } else if instances[id].status == EXECUTED {
          k := i + 1;
          continue;
        } else {
          return false, k;
        }
        if id == target {
          AlongEnds(old(View()), old(calls), ids, target, k, View(), calls);
          return true, k;
        }
      }
      AlongEnds(old(View()), old(calls), ids, target, k, View(), calls);
      return true, k;
    }

    /** One attempt at executing the target. When nothing it needs is missing
        or uncommitted this is one run; otherwise nothing changes. */
    method ExecuteInstance(target: InstanceID, storeFails: InstanceID -> bool) returns (outcome: Outcome, ghost r: Run)
      requires Valid() && target in instances && Orderable(instances)
      modifies this, index.root.Repr
      ensures Valid() && fresh(index.root.Repr - old(index.root.Repr))
      ensures calls == old(calls) + StepCalls(old(View()), Execute(target), View())
      ensures IsAttempt(old(View()), target, storeFails, outcome, r, View())
      ensures |old(executed)| <= |executed| && StoreTook(old(instances), executed[|old(executed)|..], storeFails)
    {
      hide IsInsertion, AllHandled, IsComponent, EdgesPointBack, IsReverseTopological, Flatten, RecordAll, ApplyAll, SubGraph, IsStuck, FailsAt,
           After, ExecutedCalls, StoreTook;
      ghost var s := View();
      NothingReported(s.instances);
      TookNothing(instances, executed, storeFails);
      assert executed[|executed|..] == [];
      var res;
      res, r := GetExecutionOrder(target);
      if res.UnknownInstance? {
        return Missing(res.id), r;
      }
      if res.uncommitted != {} {
        return Blocked(res.uncommitted), r;
      }
      OrderedIsKnown(s.instances, target, res, r);
      var ok, k := ExecuteDependencyChain(res.ids, target, storeFails);
      if !ok {
        StoreFailedAt(s.instances, target, res, r, k, storeFails);
      }
      r := r.(k := k);
      SameReports(s, target, r, View());
      TookFromTheStart(s.instances, r.comps, executed[|s.executed|..], storeFails);
      outcome := if ok then Done else StoreFailed;
    }

    // ---------- protocol state ----------

    method GetOrSetInstance(inst: Instance) returns (existed: bool)
      requires Valid()
      modifies this`instances, this`calls, index.root.Repr
      ensures Valid() && fresh(index.root.Repr - old(index.root.Repr))
      ensures instances == GetOrSet(old(instances), inst) && existed == (inst.id in old(instances))
      ensures calls == old(calls) + GetOrSetCalls(old(instances), inst)
    {
      hide After, Elements;
      existed := inst.id in instances;
      if !existed {
        var status := inst.status;
        if status > COMMITTED {
          status := COMMITTED;
        }
        var admitted := inst.(status := status, scc := {});
        instances := instances[inst.id := admitted];
        if status > PREACCEPTED {
          var _ := Report(AddedFor(admitted));
        }
      }
    }

    /** The dependencies are those the index returns for the instance. */
    method PreAcceptInstance(inst: Instance, increment: bool) returns (ok: bool, deps: seq<InstanceID>)
      requires Valid()
      modifies this`instances, this`calls, index.root.Repr
      ensures Valid() && fresh(index.root.Repr - old(index.root.Repr))
      ensures instances == PreacceptInstance(old(instances), inst, deps, increment)
      ensures calls == old(calls) + PreacceptCalls(old(instances), inst)
      ensures ok <==> Preaccept(GetOrSet(old(instances), inst)[inst.id], inst, deps, increment).Some?
      ensures ok ==> |calls| == |old(calls)| + 1 && Elements(deps) == Returned(After(old(calls)), calls[|old(calls)|])
    {
      hide After, Returned, Elements, Valid;
      var _ := GetOrSetInstance(inst);
      var i := instances[inst.id];
      if i.status > PREACCEPTED {
        return false, [];
      }
      assert calls == old(calls);
      var returned := Report(GetAndSetDeps(KeysOf(i), inst.id, i.readOnly));
      deps := ListIds(returned);
      var ballot := if inst.ballot > i.ballot then inst.ballot else i.ballot;
      if increment {
        ballot := (ballot + 1) % 0x1_0000_0000;
      }
      instances := instances[inst.id := i.(noop := inst.noop, status := PREACCEPTED, deps := deps, ballot := ballot)];
      ok := true;
    }

    method AcceptInstance(inst: Instance, increment: bool) returns (ok: bool)
      requires Valid()
      modifies this`instances, this`calls, index.root.Repr
      ensures Valid() && fresh(index.root.Repr - old(index.root.Repr))
      ensures instances == Handlers.AcceptInstance(old(instances), inst, increment)
      ensures calls == old(calls) + AcceptCalls(old(instances), inst)
      ensures ok <==> Accept(GetOrSet(old(instances), inst)[inst.id], inst, increment).Some?
    {
      hide After, Elements, Valid;
      var _ := GetOrSetInstance(inst);
      var i := instances[inst.id];
      if i.status > ACCEPTED {
        return false;
      }
      var ballot := if inst.ballot > i.ballot then inst.ballot else i.ballot;
      if increment {
        ballot := (ballot + 1) % 0x1_0000_0000;
      }
      instances := instances[inst.id := i.(noop := inst.noop, status := ACCEPTED, deps := inst.deps, ballot := ballot)];
      var _ := Report(Acknowledged(KeysOf(i), inst.id, Elements(inst.deps)));
      return true;
    }

    method CommitInstance(inst: Instance, increment: bool) returns (ok: bool)
      requires Valid()
      modifies this`instances, this`calls, index.root.Repr
      ensures Valid() && fresh(index.root.Repr - old(index.root.Repr))
      ensures instances == Handlers.CommitInstance(old(instances), inst, increment)
      ensures calls == old(calls) + CommitCalls(old(instances), inst)
      ensures ok <==> Commit(GetOrSet(old(instances), inst)[inst.id], inst, increment).Some?
    {
      hide After, Elements, Valid;
      var _ := GetOrSetInstance(inst);
      var i := instances[inst.id];
      if i.status > COMMITTED {
        return false;
      }
      var ballot := if inst.ballot > i.ballot then inst.ballot else i.ballot;
      if increment {
        ballot := (ballot + 1) % 0x1_0000_0000;
      }
      instances := instances[inst.id := i.(noop := inst.noop, status := COMMITTED, deps := inst.deps, ballot := ballot)];
      var _ := Report(Acknowledged(KeysOf(i), inst.id, Elements(inst.deps)));
      return true;
    }

    /** Panics on an instance that is new and has no status; n is how far it got. */
    method AddMissingInstances(insts: seq<Instance>) returns (panics: bool, ghost n: nat)
      requires Valid()
      modifies this`instances, this`calls, index.root.Repr
      ensures Valid() && fresh(index.root.Repr - old(index.root.Repr))
      ensures panics <==> exists k :: 0 <= k < |insts| && PanicsAt(old(instances), insts, k)
      ensures !panics ==> instances == AddMissing(old(instances), insts) && calls == old(calls) + MissingCalls(old(instances), insts)
      ensures panics ==> n < |insts| && PanicsAt(old(instances), insts, n)
      ensures panics ==> instances == AddMissing(old(instances), insts[..n + 1]) && calls == old(calls) + MissingCalls(old(instances), insts[..n])
    {
      hide After, AddMissing, MissingCalls, OneMissingCalls, Elements, Admitted, Valid;
      MissingNothing(old(instances));
      n := 0;
      for k := 0 to |insts|
        invariant Valid() && fresh(index.root.Repr - old(index.root.Repr))
        invariant instances == AddMissing(old(instances), insts[..k])
        invariant calls == old(calls) + MissingCalls(old(instances), insts[..k])
        invariant forall j :: 0 <= j < k ==> !PanicsAt(old(instances), insts, j)
      {
        MissingOneMore(old(instances), insts, k);
        ghost var m := instances;
        ghost var c := calls;
        var existed := GetOrSetInstance(insts[k]);
        if !existed {
          if insts[k].status < PREACCEPTED {
            panics, n := true, k;
            NotAdded(m, insts[k]);
            assert PanicsAt(old(instances), insts, k);
            return;
          }
          var _ := Report(AddedFor(instances[insts[k].id]));
        }
        OneMissingIs(m, insts[k]);
        assert calls == c + OneMissingCalls(m, insts[k]);
      }
      panics := false;
      assert insts[..|insts|] == insts;
    }

    // ---------- message handlers ----------

    method HandlePreAccept(req: Instance) returns (resp: PreAcceptResponse, ghost deps: seq<InstanceID>)
      requires Valid()
      modifies this`instances, this`calls, index.root.Repr
      ensures Valid() && fresh(index.root.Repr - old(index.root.Repr))
      ensures calls == old(calls) + CallsOf(old(instances), PreAcceptRequest(req, deps))
      ensures |calls| == |old(calls)| + 1 && calls[|old(calls)|].GetAndSetDeps? ==>
                Elements(deps) == Returned(After(old(calls)), calls[|old(calls)|])
      ensures instances == Handlers.HandlePreAccept(old(instances), req, deps)
      ensures resp.accepted <==> req.id !in old(instances) || old(instances)[req.id].ballot < req.ballot
      ensures req.id in instances && resp.instance == Copy(instances[req.id]) && resp.ballot == instances[req.id].ballot
      ensures !resp.accepted ==> resp.missing == []
      ensures resp.accepted ==> forall x :: x in Elements(instances[req.id].deps) - Elements(req.deps) && x in instances ==>
                Copy(instances[x]) in resp.missing
      ensures forall i :: i in resp.missing ==>
                exists x :: x in Elements(instances[req.id].deps) - Elements(req.deps) && x in instances && i == Copy(instances[x])
    {
      hide After, Returned, Valid, Bumped, MaxBallot;
      if req.id in instances && instances[req.id].ballot >= req.ballot {
        return PreAcceptResponse(false, instances[req.id].ballot, Copy(instances[req.id]), []), [];
      }
      var ok, list := PreAcceptInstance(req, false);
      deps := list;
      var i := instances[req.id];
      instances := instances[req.id := i.(depMatch := Elements(req.deps) == Elements(i.deps))];
      var missing := CopiesOf(instances, Elements(i.deps) - Elements(req.deps));
      resp := PreAcceptResponse(true, i.ballot, Copy(instances[req.id]), missing);
    }

    /** None stands for a panic on missing instance n. */
    method HandleAccept(req: Instance, missing: seq<Instance>) returns (resp: Option<AcceptResponse>, ghost n: nat)
      requires Valid()
      modifies this`instances, this`calls, index.root.Repr
      ensures Valid() && fresh(index.root.Repr - old(index.root.Repr))
      ensures resp.None? <==> exists k :: 0 <= k < |missing| && PanicsAt(old(instances), missing, k)
      ensures resp.None? ==> n < |missing| && PanicsAt(old(instances), missing, n)
      ensures resp.None? ==>
        instances == AddMissing(old(instances), missing[..n + 1]) && calls == old(calls) + MissingCalls(old(instances), missing[..n])
      ensures resp.Some? ==> instances == Handlers.HandleAccept(old(instances), req, missing)
      ensures resp.Some? ==> calls == old(calls) + CallsOf(old(instances), AcceptRequest(req, missing))
      ensures resp.Some? ==> (resp.value.accepted <==>
        var m1 := AddMissing(old(instances), missing); req.id !in m1 || m1[req.id].ballot < req.ballot)
      ensures resp.Some? ==> resp.value.ballot == if resp.value.accepted then 0 else KnownBallot(instances, req.id)
    {
      hide After, AddMissing, MissingCalls, AcceptCalls, PanicsAt, Valid, Handlers.AcceptInstance, Accept;
      var panics;
      panics, n := AddMissingInstances(missing);
      if panics {
        return None, n;
      }
      ghost var c := calls;
      if req.id in instances && instances[req.id].ballot >= req.ballot {
        assert MissingCalls(old(instances), missing) + [] == MissingCalls(old(instances), missing);
        return Some(AcceptResponse(false, instances[req.id].ballot)), n;
      }
      var _ := AcceptInstance(req, false);
      resp := Some(AcceptResponse(true, 0));
    }

    method HandleCommit(req: Instance)
      requires Valid()
      modifies this`instances, this`calls, index.root.Repr
      ensures Valid() && fresh(index.root.Repr - old(index.root.Repr))
      ensures instances == Handlers.HandleCommit(old(instances), req)
      ensures calls == old(calls) + CallsOf(old(instances), CommitRequest(req))
    {
      hide After, CommitCalls, Valid, Handlers.CommitInstance;
      var _ := CommitInstance(req, false);
    }

    method HandlePrepare(id: InstanceID, ballot: Ballot) returns (resp: PrepareResponse)
      modifies this`instances
      ensures instances == Handlers.HandlePrepare(old(instances), id, ballot)
      ensures resp == PrepareReply(old(instances), id, ballot)
      ensures resp.accepted <==> id !in old(instances) || ballot > old(instances)[id].ballot
      ensures resp.instance.Some? <==> id in old(instances)
      ensures resp.instance.Some? ==> instances == old(instances)[id := instances[id]] && resp.instance.value == Copy(instances[id])
      ensures resp.instance.Some? ==>
        instances[id] == if resp.accepted then old(instances)[id].(ballot := ballot) else old(instances)[id]
    {
      if id !in instances {
        return PrepareResponse(true, None);
      }
      var accepted := ballot > instances[id].ballot;
      if accepted {
        instances := instances[id := instances[id].(ballot := ballot)];
      }
      resp := PrepareResponse(accepted, Some(Copy(instances[id])));
    }

    // ---------- leader phases ----------

    /** Merges the dependencies the replicas answered with. */
    method MergePreAcceptAttributes(id: InstanceID, responses: seq<seq<InstanceID>>) returns (ok: bool, changes: bool)
      requires id in instances
      modifies this`instances
      ensures id in instances && (ok <==> responses == [] || old(instances)[id].status == PREACCEPTED)
      ensures !ok ==> instances == old(instances) && !changes
      ensures ok ==> instances == old(instances)[id := old(instances)[id].(deps := instances[id].deps)]
      ensures ok ==> Elements(instances[id].deps) == Elements(old(instances)[id].deps) + UnionOf(responses)
      ensures ok ==> (changes <==> exists k :: 0 <= k < |responses| && Elements(responses[k]) != Elements(old(instances)[id].deps))
    {
      hide Elements;
      changes := false;
      ghost var own := Elements(instances[id].deps);
      for k := 0 to |responses|
        invariant id in instances && instances == old(instances)[id := old(instances)[id].(deps := instances[id].deps)]
        invariant Elements(instances[id].deps) == own + UnionOf(responses[..k])
        invariant if k == 0 then instances == old(instances) else instances[id].status == PREACCEPTED
        invariant changes <==> exists j :: 0 <= j < k && Elements(responses[j]) != own
        invariant !changes ==> Elements(instances[id].deps) == own
      {
        assert responses[..k + 1][..k] == responses[..k];
        if instances[id].status != PREACCEPTED {
          return false, changes;
        }
        if Elements(instances[id].deps) != Elements(responses[k]) {
          changes := true;
          var deps := ListIds(Elements(instances[id].deps) + Elements(responses[k]));
          instances := instances[id := instances[id].(deps := deps)];
        }
      }
      assert responses[..|responses|] == responses;
      return true, changes;
    }

    /** Checks the replies to a prepare. A rejection brings the local ballot,
        and possibly the local status, up to date. */
    method PrepareCheckResponses(id: InstanceID, rs: seq<PrepareResponse>) returns (ok: bool)
      requires Valid() && id in instances
      modifies this`instances, this`calls, index.root.Repr
      ensures Valid() && fresh(index.root.Repr - old(index.root.Repr)) && old(calls) <= calls
      ensures ok <==> forall k :: 0 <= k < |rs| ==> rs[k].accepted
      ensures ok ==> instances == UpdateBallot(old(instances), id, HighestBallot(rs)) && calls == old(calls)
      ensures !ok ==> CatchesUp(UpdateBallot(old(instances), id, HighestBallot(rs)), id, rs, instances, calls[|old(calls)|..])
    {
      hide Handlers.AcceptInstance, Handlers.CommitInstance, Accept, Commit, GetOrSet, HighestBallot, HighestStatus,
           Valid, After, AcceptCalls, CommitCalls;
      var accepted, maxBallot, maxStatus := Summarize(rs);
      if maxBallot > instances[id].ballot {
        instances := instances[id := instances[id].(ballot := maxBallot)];
      }
      assert instances == UpdateBallot(old(instances), id, maxBallot);
      if accepted {
        return true;
      }
      ghost var at;
      var maxInstance;
      maxInstance, at := LastMatching(rs, maxBallot, maxStatus);
      assert maxInstance.Some? ==> IsLastMatch(rs, maxBallot, maxStatus, at);
      if maxInstance.Some? && maxInstance.value.status > instances[id].status {
        if maxInstance.value.status == ACCEPTED {
          var _ := AcceptInstance(maxInstance.value, false);
        } else if maxInstance.value.status == COMMITTED || maxInstance.value.status == EXECUTED {
          var _ := CommitInstance(maxInstance.value, false);
        }
      }
      return false;
    }

    /** Decides how an explicit prepare goes on. */
    method PrepareApply(id: InstanceID, rs: seq<PrepareResponse>) returns (decision: Decision, ghost res: Option<Instance>)
      requires Valid() && id in instances
      modifies this`instances, this`calls, index.root.Repr
      ensures Valid() && fresh(index.root.Repr - old(index.root.Repr)) && old(calls) <= calls
      ensures id in instances && (decision.Start? ==> calls == old(calls))
      ensures decision.Retry? <==> exists k :: 0 <= k < |rs| && !rs[k].accepted
      ensures decision.Retry? ==> CatchesUp(UpdateBallot(old(instances), id, HighestBallot(rs)), id, rs, instances, calls[|old(calls)|..])
      ensures decision.Start? ==> IsAnalysis(rs, res)
      ensures decision.Start? && TakesNoop(old(instances)[id], res) ==>
        instances == SetNoop(UpdateBallot(old(instances), id, HighestBallot(rs)), id)
      ensures decision.Start? && !TakesNoop(old(instances)[id], res) ==>
        instances == UpdateBallot(old(instances), id, HighestBallot(rs))
      ensures decision.Start? && old(instances)[id].status > PREACCEPTED ==> instances[id].noop == old(instances)[id].noop
      ensures decision.Start? && old(instances)[id].status <= PREACCEPTED ==>
        (instances[id].noop <==> old(instances)[id].noop || forall k: nat :: IsCandidate(rs, k) ==> rs[k].instance.value.status == 0)
      ensures decision.Start? && res.None? ==> decision == Start(PREACCEPTED, instances[id])
      ensures decision.Start? && res.Some? ==>
        && decision.phase == decision.instance.status
        && decision.instance == if instances[id].status > res.value.status then instances[id] else res.value
    {
      hide Valid, After;
      res := None;
      var ok := PrepareCheckResponses(id, rs);
      if !ok {
        return Retry, None;
      }
      var remote := AnalyzePrepareResponses(rs);
      res := remote;
      if remote.Some? {
        var chosen := if instances[id].status > remote.value.status then instances[id] else remote.value;
        decision := Start(chosen.status, chosen);
      } else {
        if instances[id].status <= PREACCEPTED {
          instances := instances[id := instances[id].(noop := true)];
        }
        decision := Start(PREACCEPTED, instances[id]);
      }
    }
  }

  function UnionOf(lists: seq<seq<InstanceID>>): set<InstanceID> {
    if lists == [] then {} else UnionOf(lists[..|lists| - 1]) + Elements(lists[|lists| - 1])
  }

  lemma {:induction false} UnionHas(lists: seq<seq<InstanceID>>, x: InstanceID)
    ensures x in UnionOf(lists) <==> exists k :: 0 <= k < |lists| && x in lists[k]
  {
    if lists != [] {
      var n := |lists| - 1;
      UnionHas(lists[..n], x);
      assert x in Elements(lists[n]) <==> x in lists[n];
      assert forall k :: 0 <= k < n ==> lists[..n][k] == lists[k];
    }
  }

  /** The elements of a set as a list, in no particular order. */
  method ListIds(s: set<InstanceID>) returns (l: seq<InstanceID>)
    ensures Elements(l) == s
  {
    l := [];
    var rest := s;
    while rest != {}
      invariant rest <= s && Elements(l) == s - rest
      decreases |rest|
    {
      var x :| x in rest;
      assert Elements(l + [x]) == Elements(l) + {x};
      l, rest := l + [x], rest - {x};
    }
  }

  /** Copies of the given instances, those that are known. */
  method CopiesOf(m: InstanceMap, ids: set<InstanceID>) returns (copies: seq<Instance>)
    ensures forall x :: x in ids && x in m ==> Copy(m[x]) in copies
    ensures forall i :: i in copies ==> exists x :: x in ids && x in m && i == Copy(m[x])
  {
    copies := [];
    var rest := ids;
    while rest != {}
      invariant rest <= ids
      invariant forall x :: x in ids - rest && x in m ==> Copy(m[x]) in copies
      invariant forall i :: i in copies ==> exists x :: x in ids && x in m && i == Copy(m[x])
      decreases |rest|
    {
      var x :| x in rest;
      rest := rest - {x};
      if x in m {
        copies := copies + [Copy(m[x])];
      }
    }
  }

  method Summarize(rs: seq<PrepareResponse>) returns (accepted: bool, maxBallot: Ballot, maxStatus: Status)
    ensures maxBallot == HighestBallot(rs)
    ensures accepted <==> forall k :: 0 <= k < |rs| ==> rs[k].accepted
    ensures maxStatus == HighestStatus(rs)
  {
    accepted, maxBallot, maxStatus := true, 0, 0;
    for k := 0 to |rs|
      invariant maxBallot == HighestBallot(rs[..k])
      invariant accepted <==> forall j :: 0 <= j < k ==> rs[j].accepted
      invariant maxStatus == HighestStatus(rs[..k])
    {
      assert rs[..k + 1][..k] == rs[..k];
      if rs[k].instance.Some? {
        if rs[k].instance.value.ballot > maxBallot {
          maxBallot := rs[k].instance.value.ballot;
        }
        if rs[k].instance.value.status > maxStatus {
          maxStatus := rs[k].instance.value.status;
        }
      }
      accepted := accepted && rs[k].accepted;
    }
    assert rs[..|rs|] == rs;
  }

  predicate Matches(r: PrepareResponse, ballot: Ballot, status: Status) {
    r.instance.Some? && r.instance.value.ballot == ballot && r.instance.value.status == status
  }

  method LastMatching(rs: seq<PrepareResponse>, ballot: Ballot, status: Status) returns (res: Option<Instance>, ghost at: nat)
    ensures res.None? ==> forall k :: 0 <= k < |rs| ==> !Matches(rs[k], ballot, status)
    ensures res.Some? ==> at < |rs| && Matches(rs[at], ballot, status) && rs[at].instance == res
    ensures res.Some? ==> forall k :: at < k < |rs| ==> !Matches(rs[k], ballot, status)
  {
    res, at := None, 0;
    for k := 0 to |rs|
      invariant res.None? ==> forall j :: 0 <= j < k ==> !Matches(rs[j], ballot, status)
      invariant res.Some? ==> at < k && Matches(rs[at], ballot, status) && rs[at].instance == res
      invariant res.Some? ==> forall j :: at < j < k ==> !Matches(rs[j], ballot, status)
    {
      if rs[k].instance.Some? && rs[k].instance.value.ballot == ballot && rs[k].instance.value.status == status {
        res, at := rs[k].instance, k;
      }
    }
  }

  function HighestStatus(rs: seq<PrepareResponse>): Status {
    if rs == [] then 0 else
      var t := HighestStatus(rs[..|rs| - 1]);
      var last := rs[|rs| - 1].instance;
      if last.Some? && last.value.status > t then last.value.status else t
  }

  /** No reply exceeds the highest status, and one has it unless it is zero. */
  lemma {:induction false} HighestStatusIs(rs: seq<PrepareResponse>)
    ensures forall k :: 0 <= k < |rs| && rs[k].instance.Some? ==> rs[k].instance.value.status <= HighestStatus(rs)
    ensures HighestStatus(rs) > 0 ==> exists k :: 0 <= k < |rs| && rs[k].instance.Some? && rs[k].instance.value.status == HighestStatus(rs)
  {
    if rs != [] {
      var n := |rs| - 1;
      HighestStatusIs(rs[..n]);
      assert forall k :: 0 <= k < n ==> rs[..n][k] == rs[k];
    }
  }

  /** What a rejected prepare takes over from a reply that is ahead: an accepted
      one leaves the instance accepted, a committed or executed one committed, each
      with the dependencies and noop flag of the reply. */
  lemma CaughtUpIs(m: InstanceMap, inst: Instance)
    requires inst.id in m && m[inst.id].status < inst.status
    ensures var m' := CaughtUp(m, inst);
      && inst.id in m' && (forall x :: x in m && x != inst.id ==> x in m' && m'[x] == m[x])
      && (inst.status == ACCEPTED ==> Decided(m[inst.id], inst, ACCEPTED, inst.deps, false, m'[inst.id]))
      && (inst.status == COMMITTED || inst.status == EXECUTED ==> Decided(m[inst.id], inst, COMMITTED, inst.deps, false, m'[inst.id]))
      && (inst.status < ACCEPTED || inst.status > EXECUTED ==> m' == m)
  {
    hide Handlers.AcceptInstance, Handlers.CommitInstance, Decided;
    AcceptDecides(m, inst, false);
    CommitInstanceDecides(m, inst, false);
  }

  /** After a rejection: the last reply that has both the highest ballot and the
      highest status is accepted or committed here, if it is ahead of us. */
  ghost predicate CatchesUp(m: InstanceMap, id: InstanceID, rs: seq<PrepareResponse>, m': InstanceMap, calls: seq<Call>)
    requires id in m
  {
    var b, t := HighestBallot(rs), HighestStatus(rs);
    if t <= m[id].status || forall k :: 0 <= k < |rs| ==> !Matches(rs[k], b, t) then m' == m && calls == []
    else exists k :: IsLastMatch(rs, b, t, k) && m' == CaughtUp(m, rs[k].instance.value)
                  && calls == CaughtUpCalls(m, rs[k].instance.value)
  }

  /** What a rejected prepare takes over, said outright: nothing, if no reply is
      ahead of the local status; otherwise the last of the replies that have both the
      highest ballot and the highest status, if there is one. */
  lemma CatchesUpMeans(m: InstanceMap, id: InstanceID, rs: seq<PrepareResponse>, m': InstanceMap, calls: seq<Call>)
    requires id in m && CatchesUp(m, id, rs, m', calls)
    ensures (forall k :: 0 <= k < |rs| && rs[k].instance.Some? ==> rs[k].instance.value.status <= m[id].status) ==> m' == m && calls == []
    ensures forall k :: 0 <= k < |rs| && IsLastTop(rs, k) && rs[k].instance.value.status > m[id].status ==> m' == CaughtUp(m, rs[k].instance.value)
    ensures (forall k :: 0 <= k < |rs| ==> !IsLastTop(rs, k)) ==> m' == m && calls == []
  {
    hide CaughtUp, CaughtUpCalls, IsLastTop, HighestBallot, HighestStatus;
    HighestStatusIs(rs);
    forall k | 0 <= k < |rs| ensures IsLastTop(rs, k) <==> IsLastMatch(rs, HighestBallot(rs), HighestStatus(rs), k) {
      LastTopIsLastMatch(rs, k);
    }
    forall k | 0 <= k < |rs| && IsLastTop(rs, k) ensures rs[k].instance.Some? && rs[k].instance.value.status == HighestStatus(rs) {
    }
  }

  lemma LastTopIsLastMatch(rs: seq<PrepareResponse>, k: nat)
    requires k < |rs|
    ensures IsLastTop(rs, k) <==> IsLastMatch(rs, HighestBallot(rs), HighestStatus(rs), k)
    ensures IsLastTop(rs, k) ==> rs[k].instance.Some?
  {
    hide HighestBallot, HighestStatus;
    HighestStatusIs(rs);
    HighestIsAttained(rs);
  }

  /** Reply k has the highest ballot and the highest status of all, and no later one has both. */
  ghost predicate IsLastTop(rs: seq<PrepareResponse>, k: nat)
    requires k < |rs|
  {
    && rs[k].instance.Some?
    && (forall j :: 0 <= j < |rs| && rs[j].instance.Some? ==>
         rs[j].instance.value.ballot <= rs[k].instance.value.ballot && rs[j].instance.value.status <= rs[k].instance.value.status)
    && (forall j :: k < j < |rs| && rs[j].instance.Some? ==>
         rs[j].instance.value.ballot < rs[k].instance.value.ballot || rs[j].instance.value.status < rs[k].instance.value.status)
  }

  predicate IsLastMatch(rs: seq<PrepareResponse>, b: Ballot, t: Status, k: int) {
    0 <= k < |rs| && Matches(rs[k], b, t) && forall j :: k < j < |rs| ==> !Matches(rs[j], b, t)
  }

  function CaughtUp(m: InstanceMap, inst: Instance): InstanceMap {
    if inst.status == ACCEPTED then Handlers.AcceptInstance(m, inst, false)
    else if inst.status == COMMITTED || inst.status == EXECUTED then Handlers.CommitInstance(m, inst, false)
    else m
  }

  /** The store has to execute the instance and would fail, or may not execute it yet. */
  predicate IsStuck(i: Instance, storeFails: bool) {
    i.status < COMMITTED || (i.status == COMMITTED && !i.noop && storeFails)
  }

  /** The store took every one of ids that is not a noop. */
  ghost predicate StoreTook(m: InstanceMap, ids: seq<InstanceID>, storeFails: InstanceID -> bool) {
    forall x :: x in ids ==> x in m && (m[x].noop || !storeFails(x))
  }

  lemma TookNothing(m: InstanceMap, log: seq<InstanceID>, storeFails: InstanceID -> bool)
    ensures StoreTook(m, log[|log|..], storeFails)
  {
  }

  lemma TookOneMore(s0: Replica, c0: seq<Call>, ids: seq<InstanceID>, i: nat, s: Replica, c: seq<Call>, storeFails: InstanceID -> bool)
    requires Along(s0, c0, ids, i, s, c) && i < |ids| && StoreTook(s0.instances, s.executed[|s0.executed|..], storeFails)
    requires ids[i] in s.instances
    ensures |s0.executed| <= |Apply(s, ids[i]).executed|
    ensures s.instances[ids[i]].noop || !storeFails(ids[i]) || s.instances[ids[i]].status == EXECUTED ==>
      StoreTook(s0.instances, Apply(s, ids[i]).executed[|s0.executed|..], storeFails)
  {
    hide ApplyAll, ExecutedCalls, StatusesValid;
    var n := |s0.executed|;
    assert (s.executed + [ids[i]])[n..] == s.executed[n..] + [ids[i]];
  }

  lemma TookFromTheStart(m: InstanceMap, comps: seq<seq<InstanceID>>, ids: seq<InstanceID>, storeFails: InstanceID -> bool)
    requires StoreTook(RecordAll(m, comps), ids, storeFails)
    ensures StoreTook(m, ids, storeFails)
  {
    hide RecordAll;
    forall x | x in ids ensures x in m && (m[x].noop || !storeFails(x)) {
      RecordAllFrame(m, comps, x);
    }
  }

  /** The run stopped where the store failed. */
  ghost predicate FailsAt(insts: InstanceMap, r: Run, storeFails: InstanceID -> bool) {
    var order := Flatten(r.comps);
    && r.k < |order| && order[r.k] in insts
    && insts[order[r.k]].status == COMMITTED && !insts[order[r.k]].noop && storeFails(order[r.k])
  }

  /** One attempt at executing the target, however it ends. */
  ghost predicate IsAttempt(s: Replica, target: InstanceID, storeFails: InstanceID -> bool, outcome: Outcome, r: Run, s': Replica) {
    match outcome
    case Done => IsRun(s, target, r, s') && Completes(s, target, r)
    case StoreFailed => IsRun(s, target, r, s') && FailsAt(s.instances, r, storeFails)
    case Blocked(uncommitted) => s' == s && IsExecutionGraph(s.instances, target, r.added)
      && uncommitted != {} && forall x :: x in uncommitted <==> x in r.added && !IsCommitted(s.instances, x)
    case Missing(id) => s' == s && IsUnknown(s.instances, target, r.added, id)
  }

  /** An instance nobody has told us about, met while building the graph of the target. */
  ghost predicate IsUnknown(insts: InstanceMap, target: InstanceID, added: seq<InstanceID>, id: InstanceID) {
    && id !in insts && target in insts
    && IsInsertion(insts, insts[target].deps, target, added) && Discovered(insts, added, id)
  }

  function CaughtUpCalls(m: InstanceMap, inst: Instance): seq<Call> {
    if inst.status == ACCEPTED then AcceptCalls(m, inst)
    else if inst.status == COMMITTED || inst.status == EXECUTED then CommitCalls(m, inst)
    else []
  }

  /** Missing instance k is new when its turn comes, and has no status. */
  predicate PanicsAt(m: InstanceMap, insts: seq<Instance>, k: nat)
    requires k < |insts|
  {
    insts[k].id !in AddMissing(m, insts[..k]) && insts[k].status < PREACCEPTED
  }

  function KnownBallot(m: InstanceMap, id: InstanceID): Ballot {
    if id in m then m[id].ballot else 0
  }

  lemma AfterOneMore(calls: seq<Call>, c: Call)
    ensures After(calls + [c]) == Perform(After(calls), c)
  {
    assert (calls + [c])[..|calls|] == calls;
  }

  lemma MissingNothing(m: InstanceMap)
    ensures AddMissing(m, []) == m && MissingCalls(m, []) == []
  {
  }

  lemma MissingOneMore(m: InstanceMap, insts: seq<Instance>, k: nat)
    requires k < |insts|
    ensures AddMissing(m, insts[..k + 1]) == GetOrSet(AddMissing(m, insts[..k]), insts[k])
    ensures MissingCalls(m, insts[..k + 1]) == MissingCalls(m, insts[..k]) + OneMissingCalls(AddMissing(m, insts[..k]), insts[k])
  {
    assert insts[..k + 1][..k] == insts[..k];
  }

  lemma NotAdded(m: InstanceMap, inst: Instance)
    requires inst.status < PREACCEPTED
    ensures GetOrSetCalls(m, inst) == []
  {
  }

  lemma OneMissingIs(m: InstanceMap, inst: Instance)
    ensures inst.id in m ==> OneMissingCalls(m, inst) == [] && GetOrSetCalls(m, inst) == []
    ensures inst.id !in m ==>
      OneMissingCalls(m, inst) == GetOrSetCalls(m, inst) + [AddedFor(GetOrSet(m, inst)[inst.id])]
  {
  }

  function AppliedCalls(m: InstanceMap, id: InstanceID): seq<Call> {
    if id in m && m[id].status == COMMITTED then [Executed(KeysOf(m[id]), id, Elements(m[id].deps))] else []
  }

  lemma NothingReported(m: InstanceMap)
    ensures ExecutedCalls(m, []) == []
  {
  }

  /** Applying one more instance reports it, as it was known from the start. */
  lemma ReportsOneMore(m: InstanceMap, s: Replica, id: InstanceID, n: nat)
    requires ExecutionFrame(m, s.instances) && n <= |s.executed| && id in s.instances
    ensures s.executed <= Apply(s, id).executed
    ensures ExecutedCalls(m, Apply(s, id).executed[n..]) == ExecutedCalls(m, s.executed[n..]) + AppliedCalls(s.instances, id)
  {
    if s.instances[id].status == COMMITTED {
      var ids := s.executed[n..];
      assert (s.executed + [id])[n..] == ids + [id];
      assert (ids + [id])[..|ids|] == ids;
    }
  }

  lemma {:induction false} ReportsInFrame(m: InstanceMap, m': InstanceMap, ids: seq<InstanceID>)
    requires ExecutionFrame(m, m')
    ensures ExecutedCalls(m', ids) == ExecutedCalls(m, ids)
  {
    if ids != [] {
      ReportsInFrame(m, m', ids[..|ids| - 1]);
    }
  }

  lemma SameReports(s: Replica, target: InstanceID, r: Run, s': Replica)
    requires IsRun(s, target, r, s') && s.executed <= s'.executed
    ensures StepCalls(s, Execute(target), s') == ExecutedCalls(RecordAll(s.instances, r.comps), s'.executed[|s.executed|..])
  {
    hide IsRun, RecordAll, ExecutedCalls, ExecutionFrame;
    ExecuteFrame(s, target, s') by { assert ExecuteStep(s, target, s'); }
    RecordFrame(s.instances, r.comps);
    ReportsInFrame(s.instances, s'.instances, s'.executed[|s.executed|..]);
    ReportsInFrame(s.instances, RecordAll(s.instances, r.comps), s'.executed[|s.executed|..]);
  }

  ghost predicate IsOrdering(insts: InstanceMap, target: InstanceID, res: Ordering, r: Run)
    requires res.Order?
  {
    && IsExecutionGraph(insts, target, r.added)
    && IsExecutionOrder(SubGraph(insts, r.added), r.comps)
    && res.ids == Flatten(r.comps)
    && (forall x :: x in res.uncommitted <==> x in r.added && !IsCommitted(insts, x))
    && (forall x :: x in r.added ==> x in insts)
  }

  lemma EmptyInsertion(insts: InstanceMap, targetDeps: seq<InstanceID>, target: InstanceID)
    ensures IsInsertion(insts, targetDeps, target, [])
    ensures SubGraph(insts, []) == map[]
  {
  }

  lemma BuiltGraph(insts: InstanceMap, target: InstanceID, added: seq<InstanceID>)
    requires target in insts && IsInsertion(insts, insts[target].deps, target, added)
    requires HandledFrom(insts, insts[target].deps, added, 0)
    requires target in added || LeftOut(insts, insts[target].deps, [], target)
    ensures IsExecutionGraph(insts, target, added) && forall x :: x in added ==> x in insts
  {
    hide AllHandled, Distinct, Discovered;
  }

  lemma ComponentsAreKnown(insts: InstanceMap, added: seq<InstanceID>, comps: seq<seq<InstanceID>>)
    requires IsReverseTopological(SubGraph(insts, added), comps)
    ensures forall i :: 0 <= i < |comps| ==> Distinct(comps[i])
    ensures forall i, x :: 0 <= i < |comps| && x in comps[i] ==> x in insts
  {
    hide Mutual, EdgesPointBack;
    forall i | 0 <= i < |comps| ensures Distinct(comps[i]) && forall x :: x in comps[i] ==> x in insts {
      assert IsComponent(SubGraph(insts, added), comps[i]);
    }
  }

  lemma OrderedIsKnown(insts: InstanceMap, target: InstanceID, res: Ordering, r: Run)
    requires res.Order? && IsOrdering(insts, target, res, r)
    ensures forall x :: x in res.ids ==> x in insts
    ensures StatusesValid(insts) ==> StatusesValid(RecordAll(insts, r.comps))
    ensures IsExecuted(RecordAll(insts, r.comps), target) <==> IsExecuted(insts, target)
  {
    hide Mutual, EdgesPointBack, IsExecutionGraph, Flatten, RecordAll;
    forall x | x in res.ids ensures x in insts {
      var i := FlattenSource(r.comps, x);
      assert IsComponent(SubGraph(insts, r.added), r.comps[i]);
    }
    forall x ensures x in insts ==> RecordAll(insts, r.comps)[x] == insts[x].(scc := RecordAll(insts, r.comps)[x].scc) {
      RecordAllFrame(insts, r.comps, x);
    }
  }

  lemma ApplyOneMore(s: Replica, ids: seq<InstanceID>, i: nat)
    requires i < |ids|
    ensures ApplyAll(s, ids[..i + 1]) == Apply(ApplyAll(s, ids[..i]), ids[i])
  {
    assert ids[..i + 1][..i] == ids[..i];
  }

  lemma ApplyNone(s: Replica)
    ensures ApplyAll(s, []) == s
  {
  }

  lemma StatusIsValid(m: InstanceMap, id: InstanceID)
    requires StatusesValid(m) && id in m
    ensures m[id].status <= EXECUTED && (IsExecuted(m, id) <==> m[id].status == EXECUTED)
  {
  }

  lemma ApplyFrame(s: Replica, id: InstanceID)
    ensures Apply(s, id).instances.Keys == s.instances.Keys
    ensures StatusesValid(s.instances) ==> StatusesValid(Apply(s, id).instances)
    ensures forall x :: x != id ==> (IsExecuted(Apply(s, id).instances, x) <==> IsExecuted(s.instances, x))
    ensures IsExecuted(s.instances, id) ==> IsExecuted(Apply(s, id).instances, id)
    ensures id in s.instances && s.instances[id].status == EXECUTED ==> Apply(s, id) == s
  {
  }

  /** The first i of ids have been applied to s0, with their reports. */
  ghost predicate Along(s0: Replica, c0: seq<Call>, ids: seq<InstanceID>, i: nat, s: Replica, c: seq<Call>) {
    && i <= |ids| && s == ApplyAll(s0, ids[..i])
    && s.instances.Keys == s0.instances.Keys && StatusesValid(s.instances) && ExecutionFrame(s0.instances, s.instances)
    && s0.executed <= s.executed && c == c0 + ExecutedCalls(s0.instances, s.executed[|s0.executed|..])
  }

  /** The target has not been met, or was executed all along. */
  ghost predicate NotYet(s0: Replica, ids: seq<InstanceID>, target: InstanceID, i: nat, s: Replica) {
    if IsExecuted(s0.instances, target) then IsExecuted(s.instances, target)
    else i <= |ids| && !IsExecuted(s.instances, target) && forall j :: 0 <= j < i ==> ids[j] != target
  }

  lemma AlongStarts(s: Replica, c: seq<Call>, ids: seq<InstanceID>, target: InstanceID)
    requires StatusesValid(s.instances)
    ensures Along(s, c, ids, 0, s, c) && NotYet(s, ids, target, 0, s)
  {
    hide ExecutionFrame, ApplyAll;
    ApplyNone(s);
    NothingExecutedYet(s.instances);
    NothingReported(s.instances);
    assert s.executed[|s.executed|..] == [];
  }

  /** What the next instance tells, wherever the loop stops. */
  lemma AlongMeans(s0: Replica, c0: seq<Call>, ids: seq<InstanceID>, target: InstanceID, i: nat, s: Replica, c: seq<Call>, storeFails: bool)
    requires Along(s0, c0, ids, i, s, c) && NotYet(s0, ids, target, i, s) && i < |ids| && ids[i] in s0.instances
    ensures ids[i] in s.instances && s.instances[ids[i]].status <= EXECUTED
    ensures IsExecuted(s.instances, ids[i]) <==> s.instances[ids[i]].status == EXECUTED
    ensures IsStuck(s.instances[ids[i]], storeFails) ==> IsStuck(s0.instances[ids[i]], storeFails)
    ensures s.instances[ids[i]].status < COMMITTED ==> IsStuck(s0.instances[ids[i]], storeFails)
    ensures s == ApplyAll(s0, ids[..i]) && s0.executed <= s.executed
    ensures c == c0 + ExecutedCalls(s0.instances, s.executed[|s0.executed|..])
    ensures StopsAtTarget(s0.instances, ids, target, i)
    ensures ids[i] == target && s.instances[target].status == COMMITTED ==> !IsExecuted(s0.instances, target)
  {
    hide ExecutionFrame, ApplyAll, ExecutedCalls, IsStuck, StatusesValid;
    StatusIsValid(s.instances, ids[i]);
    StuckFromTheStart(s0.instances, s.instances, ids[i], storeFails);
  }

  lemma AlongStep(s0: Replica, c0: seq<Call>, ids: seq<InstanceID>, target: InstanceID, i: nat, s: Replica, c: seq<Call>)
    requires Along(s0, c0, ids, i, s, c) && NotYet(s0, ids, target, i, s) && i < |ids| && ids[i] in s0.instances
    ensures var s', c' := Apply(s, ids[i]), c + AppliedCalls(s.instances, ids[i]);
      && Along(s0, c0, ids, i + 1, s', c') && StopsAtTarget(s0.instances, ids, target, i + 1)
      && (ids[i] != target || IsExecuted(s0.instances, target) ==> NotYet(s0, ids, target, i + 1, s'))
    ensures ids[i] in s.instances && s.instances[ids[i]].status == EXECUTED ==>
      && Along(s0, c0, ids, i + 1, s, c)
      && (ids[i] != target || IsExecuted(s0.instances, target)) && NotYet(s0, ids, target, i + 1, s)
  {
    hide Apply, ApplyAll, ExecutionFrame, ExecutedCalls, AppliedCalls, StatusesValid;
    ApplyOneMore(s0, ids, i);
    ApplyFrame(s, ids[i]);
    ApplyKeepsFrame(s0.instances, s, ids[i]);
    ReportsOneMore(s0.instances, s, ids[i], |s0.executed|);
    NothingToApply(s.instances, ids[i]);
    assert c + [] == c;
  }

  lemma NothingToApply(m: InstanceMap, id: InstanceID)
    ensures id in m && m[id].status == EXECUTED ==> AppliedCalls(m, id) == [] && IsExecuted(m, id)
  {
  }

  lemma AlongEnds(s0: Replica, c0: seq<Call>, ids: seq<InstanceID>, target: InstanceID, k: nat, s: Replica, c: seq<Call>)
    requires Along(s0, c0, ids, k, s, c)
    ensures s == ApplyAll(s0, ids[..k]) && s0.executed <= s.executed
    ensures c == c0 + ExecutedCalls(s0.instances, s.executed[|s0.executed|..])
    ensures NotYet(s0, ids, target, k, s) ==> StopsAtTarget(s0.instances, ids, target, k)
  {
    hide ExecutionFrame, ApplyAll, ExecutedCalls, StatusesValid;
  }

  lemma NothingExecutedYet(m: InstanceMap)
    ensures ExecutionFrame(m, m)
  {
  }

  lemma ApplyKeepsFrame(m: InstanceMap, s: Replica, id: InstanceID)
    requires ExecutionFrame(m, s.instances)
    ensures ExecutionFrame(m, Apply(s, id).instances)
  {
  }

  lemma StuckFromTheStart(m: InstanceMap, m': InstanceMap, id: InstanceID, storeFails: bool)
    requires ExecutionFrame(m, m') && id in m
    ensures IsStuck(m'[id], storeFails) ==> IsStuck(m[id], storeFails)
    ensures m'[id].status < COMMITTED ==> IsStuck(m[id], storeFails)
  {
  }

  /** Everything ordered is committed, so only the store can have failed. */
  lemma StoreFailedAt(insts: InstanceMap, target: InstanceID, res: Ordering, r: Run, k: nat, storeFails: InstanceID -> bool)
    requires res.Order? && IsOrdering(insts, target, res, r) && res.uncommitted == {}
    requires k < |res.ids| && res.ids[k] in insts && IsStuck(RecordAll(insts, r.comps)[res.ids[k]], storeFails(res.ids[k]))
    ensures FailsAt(insts, r.(k := k), storeFails)
  {
    hide Mutual, EdgesPointBack, IsExecutionGraph, Flatten, RecordAll;
    var x := res.ids[k];
    RecordAllFrame(insts, r.comps, x);
    var i := FlattenSource(r.comps, x);
    assert IsComponent(SubGraph(insts, r.added), r.comps[i]);
    assert x in r.added;
    assert IsCommitted(insts, x);
  }

  // ---------- a reachable manager ----------

  /** On every reachable replica ordering can look up all it needs. */
  lemma ReachableIsOrderable(d: Graph, s: Replica)
    requires Reachable(d, s)
    ensures Orderable(s.instances)
  {
    hide Reachable, AppliedMatches, ComponentsRecorded, DepsFirst, ComponentsInIdOrder, Reach;
    ReachableSound(d, s);
    forall x, e | IsExecuted(s.instances, x) && e in s.instances[x].deps ensures e in s.instances {
      assert IsCommitted(s.instances, x);
      ReachRefl(d, x);
      assert Grounded(d, s.instances, x);
      assert e in d[x];
      assert IsCommitted(s.instances, e);
    }
  }

  /** What a run leaves behind is again reachable: commits still agree. */
  lemma RunIsReachable(d: Graph, s: Replica, target: InstanceID, r: Run, s': Replica)
    requires Reachable(d, s) && IsRun(s, target, r, s')
    ensures Reachable(d, s')
  {
    hide Reachable, IsRun, AppliedMatches, ExecutedClosed, LogIsExact, ComponentsRecorded, DepsFirst, ComponentsInIdOrder;
    ReachableSound(d, s);
    RunKeepsInv(d, s, target, r, s');
    assert ExecuteStep(s, target, s');
    ReachableStep(d, s, Execute(target), s');
  }

  /** A run that completes has executed its target. */
  lemma CompletedRunExecutesTarget(d: Graph, s: Replica, target: InstanceID, r: Run, s': Replica)
    requires Reachable(d, s) && IsRun(s, target, r, s') && Completes(s, target, r)
    ensures target in s'.executed
  {
    hide Reachable, AppliedMatches, Inv, IsReverseTopological, Flatten, RecordAll, ApplyAll, AllHandled, Wanted, Discovered, Distinct;
    ReachableSound(d, s);
    PrefixUnderway(d, s, target, r, r.k);
    var order := Flatten(r.comps);
    assert order[..|order|] == order;
    if r.added == [] {
      ExecutedIsLogged(d, s, target);
      assert target in s'.executed;
    } else {
      assert target in r.added;
      var i := VertexIsInComponent(SubGraph(s.instances, r.added), r.comps, target);
      FlattenMember(r.comps, i, target);
      assert target in order[..r.k];
    }
  }

  // ---------- progress ----------

  /** If all the target reaches is committed, so is all that is added for it. */
  lemma {:induction false} AddedIsCommitted(d: Graph, s: Replica, target: InstanceID, added: seq<InstanceID>, n: nat)
    requires CommitsAgree(d, s.instances) && IsCommitted(s.instances, target) && Grounded(d, s.instances, target)
    requires target in s.instances && IsInsertion(s.instances, s.instances[target].deps, target, added) && n <= |added|
    ensures forall x :: x in added[..n] ==> IsCommitted(s.instances, x) && Reach(d, target, x)
  {
    hide Reach, Wanted, Distinct, Discovered, CommitsAgree, Grounded;
    if n > 0 {
      AddedIsCommitted(d, s, target, added, n - 1);
      var before, x := added[..n - 1], added[n - 1];
      assert added[..n] == before + [x];
      if n == 1 {
        ReachRefl(d, target);
      } else {
        DiscoveredIsCommitted(d, s, target, before, x);
      }
    }
  }

  lemma DiscoveredIsCommitted(d: Graph, s: Replica, target: InstanceID, before: seq<InstanceID>, x: InstanceID)
    requires CommitsAgree(d, s.instances) && Grounded(d, s.instances, target) && Discovered(s.instances, before, x)
    requires forall y :: y in before ==> IsCommitted(s.instances, y) && Reach(d, target, y)
    ensures IsCommitted(s.instances, x) && Reach(d, target, x)
  {
    hide Reach;
    var y :| y in before && y in s.instances && x in s.instances[y].deps;
    assert y in d && x in d[y];
    assert IsCommitted(s.instances, x);
    ReachEdge(d, y, x);
    ReachTrans(d, target, y, x);
  }

  /** The dependencies of all known instances, as they stand. */
  function KnownDeps(insts: InstanceMap): Graph {
    map x | x in insts :: insts[x].deps
  }

  lemma {:induction false} AddedIsReached(insts: InstanceMap, target: InstanceID, added: seq<InstanceID>, n: nat)
    requires target in insts && IsInsertion(insts, insts[target].deps, target, added) && n <= |added|
    ensures forall x :: x in added[..n] ==> Reach(KnownDeps(insts), target, x)
  {
    hide Reach, Wanted, Distinct, Discovered, KnownDeps;
    if n > 0 {
      AddedIsReached(insts, target, added, n - 1);
      var g, before, x := KnownDeps(insts), added[..n - 1], added[n - 1];
      assert added[..n] == before + [x];
      if n == 1 {
        ReachRefl(g, target);
      } else {
        DiscoveredIsReached(insts, target, before, x);
      }
    }
  }

  lemma DiscoveredIsReached(insts: InstanceMap, target: InstanceID, before: seq<InstanceID>, x: InstanceID)
    requires Discovered(insts, before, x) && x in insts
    requires forall y :: y in before ==> Reach(KnownDeps(insts), target, y)
    ensures Reach(KnownDeps(insts), target, x)
  {
    hide Reach;
    var y :| y in before && y in insts && x in insts[y].deps;
    ReachEdge(KnownDeps(insts), y, x);
    ReachTrans(KnownDeps(insts), target, y, x);
  }

  /** Whatever holds an attempt up is needed: what blocks it is reached from the
      target through known instances, and what is missing is a dependency of one
      that is. */
  lemma HeldUpByNeed(s: Replica, target: InstanceID, storeFails: InstanceID -> bool, outcome: Outcome, r: Run, s': Replica)
    requires IsAttempt(s, target, storeFails, outcome, r, s')
    ensures outcome.Blocked? ==> forall x :: x in outcome.uncommitted ==>
      x in s.instances && !IsCommitted(s.instances, x) && Reach(KnownDeps(s.instances), target, x)
    ensures outcome.Missing? ==> outcome.id !in s.instances
    ensures outcome.Missing? ==>
      exists y :: y in s.instances && outcome.id in s.instances[y].deps && Reach(KnownDeps(s.instances), target, y)
  {
    hide Reach, IsRun, Completes, FailsAt, AllHandled, KnownDeps, Wanted;
    if outcome.Blocked? || outcome.Missing? {
      AddedIsReached(s.instances, target, r.added, |r.added|);
      assert r.added[..|r.added|] == r.added;
    }
  }

  /** If all the target reaches is committed, nothing holds the attempt up. */
  lemma NothingHoldsUp(d: Graph, s: Replica, target: InstanceID, storeFails: InstanceID -> bool, outcome: Outcome, r: Run, s': Replica)
    requires CommitsAgree(d, s.instances) && IsAttempt(s, target, storeFails, outcome, r, s')
    requires IsCommitted(s.instances, target) && Grounded(d, s.instances, target)
    ensures outcome.Done? || outcome.StoreFailed?
  {
    hide CommitsAgree, Grounded, Reach, IsInsertion, AllHandled, IsRun, Completes, FailsAt, Discovered;
    if outcome.Blocked? || outcome.Missing? {
      AddedIsCommitted(d, s, target, r.added, |r.added|);
      assert r.added[..|r.added|] == r.added;
      if outcome.Missing? {
        DiscoveredIsCommitted(d, s, target, r.added, outcome.id);
      }
      assert false;
    }
  }

  lemma RunIsGrounded(d: Graph, s: Replica, target: InstanceID, r: Run, s': Replica)
    requires Inv(d, s) && IsRun(s, target, r, s')
    ensures IsCommitted(s.instances, target) && Grounded(d, s.instances, target)
  {
    hide Inv, Grounded, IsInsertion, AllHandled, IsExecutionOrder, Flatten, RecordAll, ApplyAll;
    if r.added == [] {
      ExecutedIsLogged(d, s, target);
      ExecutedIsGrounded(d, s, target);
    } else {
      assert target in r.added by { TargetIsAdded(s.instances, target, r.added); }
      NextIsGrounded(d, s, target, r, s, target);
    }
  }

  lemma TargetIsAdded(insts: InstanceMap, target: InstanceID, added: seq<InstanceID>)
    requires IsExecutionGraph(insts, target, added) && added != []
    ensures target in added
  {
    hide Wanted, Discovered, AllHandled;
  }

  /** On every reachable replica an attempt executes, up to a failure of the store,
      if and only if the target and all that it reaches are known and committed.
      If the store accepts, the target is then executed. */
  lemma Progress(d: Graph, s: Replica, target: InstanceID, storeFails: InstanceID -> bool, outcome: Outcome, r: Run, s': Replica)
    requires Reachable(d, s) && IsAttempt(s, target, storeFails, outcome, r, s')
    ensures outcome.Done? || outcome.StoreFailed? <==> IsCommitted(s.instances, target) && Grounded(d, s.instances, target)
    ensures outcome.StoreFailed? ==> exists x :: storeFails(x)
    ensures outcome.Done? ==> target in s'.executed
  {
    hide Reachable, Grounded, AppliedMatches, ExecutedClosed, LogIsExact, ComponentsRecorded, DepsFirst, ComponentsInIdOrder,
         CommitsAgree, IsRun, Completes, IsExecutionGraph, IsUnknown;
    ReachableSound(d, s);
    if outcome.Done? || outcome.StoreFailed? {
      RunIsGrounded(d, s, target, r, s');
    }
    if IsCommitted(s.instances, target) && Grounded(d, s.instances, target) {
      NothingHoldsUp(d, s, target, storeFails, outcome, r, s');
    }
    if outcome.Done? {
      CompletedRunExecutesTarget(d, s, target, r, s');
    }
  }

  lemma RecordOne(m: InstanceMap, comps: seq<seq<InstanceID>>, c: seq<InstanceID>)
    ensures RecordAll(m, comps + [c]) == RecordComponent(RecordAll(m, comps), c)
    ensures |c| <= 1 ==> RecordAll(m, comps + [c]) == RecordAll(m, comps)
    ensures Flatten(comps + [c]) == Flatten(comps) + c
  {
    assert (comps + [c])[..|comps|] == comps;
  }
}
