/** What getExecutionOrder and executeDependencyChain do to a replica, stated
    as a relation between the replica before and after. */
module ExecutionOrder {
  import opened Ids
  import opened Instances
  import opened Graphs

  // ---------- the pruned dependency graph ----------

  /** Union of the components recorded on the given instances. */
  ghost predicate Required(insts: InstanceMap, added: seq<InstanceID>, x: InstanceID) {
    exists y :: y in added && y in insts && x in insts[y].scc
  }

  /** An executed instance d that addInstance leaves out when it meets it as a
      dependency of v: nothing it depends on is unexecuted or wanted by the
      target, and no component recorded on v asks for it. */
  ghost predicate Skippable(insts: InstanceMap, targetDeps: seq<InstanceID>, v: InstanceID, d: InstanceID) {
    && IsExecuted(insts, d)
    && d !in targetDeps
    && (forall e :: e in insts[d].deps ==> IsExecuted(insts, e) && e !in targetDeps)
    && (insts[d].deps != [] && v in insts ==> d !in insts[v].scc)
  }

  ghost predicate Handled(insts: InstanceMap, targetDeps: seq<InstanceID>, graph: set<InstanceID>, v: InstanceID, d: InstanceID) {
    d in graph || Skippable(insts, targetDeps, v, d)
  }

  /** Every dependency of x is in the graph or could be left out. */
  ghost predicate AllHandled(insts: InstanceMap, targetDeps: seq<InstanceID>, graph: set<InstanceID>, x: InstanceID) {
    x in insts && forall d :: d in insts[x].deps ==> Handled(insts, targetDeps, graph, x, d)
  }

  /** The reason an executed instance was added although it is executed. */
  ghost predicate Wanted(insts: InstanceMap, targetDeps: seq<InstanceID>, before: seq<InstanceID>, x: InstanceID) {
    || !IsExecuted(insts, x)
    || x in targetDeps
    || (x in insts && (exists e :: e in insts[x].deps && Connects(insts, targetDeps, before, x, e)))
  }

  /** Dependency e connects the executed instance x to the graph. */
  ghost predicate Connects(insts: InstanceMap, targetDeps: seq<InstanceID>, before: seq<InstanceID>, x: InstanceID, e: InstanceID) {
    e in before || !IsExecuted(insts, e) || e in targetDeps || Required(insts, before, x)
  }

  ghost predicate Discovered(insts: InstanceMap, before: seq<InstanceID>, x: InstanceID) {
    exists y :: y in before && y in insts && x in insts[y].deps
  }

  /** added lists the vertices addInstance put in the graph, in that order. */
  ghost predicate IsInsertion(insts: InstanceMap, targetDeps: seq<InstanceID>, target: InstanceID, added: seq<InstanceID>) {
    && Distinct(added)
    && (forall i :: 0 <= i < |added| ==> added[i] in insts)
    && (forall i :: 0 <= i < |added| ==> Wanted(insts, targetDeps, added[..i], added[i]))
    && (forall i :: 0 < i < |added| ==> Discovered(insts, added[..i], added[i]))
    && (|added| > 0 ==> added[0] == target)
  }

  function SubGraph(insts: InstanceMap, added: seq<InstanceID>): Graph {
    map x | x in added && x in insts :: insts[x].deps
  }

  ghost predicate IsExecutionGraph(insts: InstanceMap, target: InstanceID, added: seq<InstanceID>) {
    && target in insts
    && IsInsertion(insts, insts[target].deps, target, added)
    && (forall x :: x in added ==> AllHandled(insts, insts[target].deps, Elements(added), x))
    && (added == [] ==> IsExecuted(insts, target))
  }

  // ---------- the order ----------

  ghost predicate SortedById(c: seq<InstanceID>) {
    forall i, j :: 0 <= i < j < |c| ==> Precedes(c[i], c[j])
  }

  function Flatten(comps: seq<seq<InstanceID>>): seq<InstanceID> {
    if comps == [] then [] else Flatten(comps[..|comps| - 1]) + comps[|comps| - 1]
  }

  ghost predicate IsExecutionOrder(g: Graph, comps: seq<seq<InstanceID>>) {
    && IsReverseTopological(g, comps)
    && (forall i :: 0 <= i < |comps| ==> SortedById(comps[i]))
  }

  // ---------- effects ----------

  function RecordComponent(insts: InstanceMap, c: seq<InstanceID>): InstanceMap {
    if |c| > 1 then map x | x in insts :: if x in c then insts[x].(scc := Elements(c)) else insts[x]
    else insts
  }

  function RecordAll(insts: InstanceMap, comps: seq<seq<InstanceID>>): (r: InstanceMap)
    ensures r.Keys == insts.Keys
  {
    if comps == [] then insts
    else RecordComponent(RecordAll(insts, comps[..|comps| - 1]), comps[|comps| - 1])
  }

  function Apply(s: Replica, id: InstanceID): Replica {
    if id in s.instances && s.instances[id].status == COMMITTED then
      Replica(s.instances[id := s.instances[id].(status := EXECUTED)],
              s.executed + [id],
              if s.instances[id].noop then s.applied else s.applied + [s.instances[id].command])
    else s
  }

  function ApplyAll(s: Replica, ids: seq<InstanceID>): Replica {
    if ids == [] then s else Apply(ApplyAll(s, ids[..|ids| - 1]), ids[|ids| - 1])
  }

  /** One executeInstance that finds nothing uncommitted: the graph is built and
      ordered, components are recorded, and the first k of the order applied. */
  datatype Run = Run(added: seq<InstanceID>, comps: seq<seq<InstanceID>>, k: nat)

  /** Execution goes no further than the target, unless the target had already
      been executed and is passed over. */
  ghost predicate StopsAtTarget(insts: InstanceMap, order: seq<InstanceID>, target: InstanceID, k: nat) {
    && k <= |order|
    && (!IsExecuted(insts, target) ==> forall j :: 0 <= j < k - 1 ==> order[j] != target)
  }

  ghost predicate IsRun(s: Replica, target: InstanceID, r: Run, s': Replica) {
    && IsExecutionGraph(s.instances, target, r.added)
    && (forall x :: x in r.added ==> IsCommitted(s.instances, x))
    && IsExecutionOrder(SubGraph(s.instances, r.added), r.comps)
    && StopsAtTarget(s.instances, Flatten(r.comps), target, r.k)
    && s' == ApplyAll(s.(instances := RecordAll(s.instances, r.comps)), Flatten(r.comps)[..r.k])
  }

  /** r.k is short of the whole order only because the store reported an error
      or because the target has just been executed. */
  ghost predicate Completes(s: Replica, target: InstanceID, r: Run) {
    var order := Flatten(r.comps);
    r.k == |order| || (!IsExecuted(s.instances, target) && 0 < r.k <= |order| && order[r.k - 1] == target)
  }

  ghost predicate ExecuteStep(s: Replica, target: InstanceID, s': Replica) {
    exists r :: IsRun(s, target, r, s')
  }
}
