/** Whole runs of a replica together with the calls they make on the dependency
    index: what the index is never asked to do, and what follows for new writes. */
module IndexedRuns {
  import opened Ids
  import opened Instances
  import opened Graphs
  import opened ExecutionOrder
  import opened Handlers
  import opened Traces
  import opened DependencyTrie
  import opened DependencyRuns

  // ---------- the calls each step makes ----------

  /** The store names one key for every instruction. */
  function KeysOf(i: Instance): Path {
    [i.command.key]
  }

  function AddedFor(i: Instance): Call {
    Added(KeysOf(i), i.id, i.readOnly, Elements(i.deps))
  }

  function GetOrSetCalls(m: InstanceMap, inst: Instance): seq<Call> {
    if inst.id in m || Admitted(inst).status <= PREACCEPTED then [] else [AddedFor(Admitted(inst))]
  }

  /** A missing instance that is new is added once more. */
  function MissingCalls(m: InstanceMap, insts: seq<Instance>): seq<Call> {
    if insts == [] then [] else
      var n := |insts| - 1;
      var m1 := AddMissing(m, insts[..n]);
      MissingCalls(m, insts[..n]) + OneMissingCalls(m1, insts[n])
  }

  function OneMissingCalls(m: InstanceMap, inst: Instance): seq<Call> {
    if inst.id in m then [] else GetOrSetCalls(m, inst) + [AddedFor(Admitted(inst))]
  }

  function PreacceptCalls(m: InstanceMap, inst: Instance): seq<Call> {
    var i := GetOrSet(m, inst)[inst.id];
    GetOrSetCalls(m, inst) + if i.status > PREACCEPTED then [] else [GetAndSetDeps(KeysOf(i), inst.id, i.readOnly)]
  }

  function AcceptCalls(m: InstanceMap, inst: Instance): seq<Call> {
    var i := GetOrSet(m, inst)[inst.id];
    GetOrSetCalls(m, inst) + if i.status > ACCEPTED then [] else [Acknowledged(KeysOf(i), inst.id, Elements(inst.deps))]
  }

  function CommitCalls(m: InstanceMap, inst: Instance): seq<Call> {
    var i := GetOrSet(m, inst)[inst.id];
    GetOrSetCalls(m, inst) + if i.status > COMMITTED then [] else [Acknowledged(KeysOf(i), inst.id, Elements(inst.deps))]
  }

  function CallsOf(m: InstanceMap, e: Event): seq<Call> {
    match e
    case PreAcceptRequest(req, _) => if Rejects(m, req.id, req.ballot) then [] else PreacceptCalls(m, req)
    case AcceptRequest(req, missing) =>
      var m1 := AddMissing(m, missing);
      MissingCalls(m, missing) + if Rejects(m1, req.id, req.ballot) then [] else AcceptCalls(m1, req)
    case CommitRequest(req) => CommitCalls(m, req)
    case LocalPreAccept(req, _) => PreacceptCalls(m, req)
    case LocalAccept(req, _) => AcceptCalls(m, req)
    case LocalCommit(req, _) => CommitCalls(m, req)
    case MissingInstances(missing) => MissingCalls(m, missing)
    case _ => []
  }

  function ExecutedCalls(m: InstanceMap, ids: seq<InstanceID>): seq<Call> {
    if ids == [] then [] else
      var n := |ids| - 1;
      ExecutedCalls(m, ids[..n]) + if ids[n] in m then [Executed(KeysOf(m[ids[n]]), ids[n], Elements(m[ids[n]].deps))] else []
  }

  function StepCalls(s: Replica, l: Label, s': Replica): seq<Call> {
    match l
    case Handle(e) => CallsOf(s.instances, e)
    case Execute(_) => if s.executed <= s'.executed then ExecutedCalls(s'.instances, s'.executed[|s.executed|..]) else []
  }

  /** The calls made by the first n steps of a run. */
  function AllCalls(states: seq<Replica>, labels: seq<Label>, n: nat): seq<Call>
    requires n <= |labels| && |states| == |labels| + 1
  {
    if n == 0 then [] else AllCalls(states, labels, n - 1) + StepCalls(states[n - 1], labels[n - 1], states[n])
  }

  // ---------- no reads ----------

  ghost predicate NoReads(m: InstanceMap) {
    forall x :: x in m ==> !m[x].readOnly
  }

  predicate WritesOnly(insts: seq<Instance>) {
    forall k :: 0 <= k < |insts| ==> !insts[k].readOnly
  }

  /** The instances a message carries are not marked read only. No replica marks
      its own, and a copy never is. */
  predicate CarriesWrites(e: Event) {
    match e
    case PreAcceptRequest(req, _) => !req.readOnly
    case AcceptRequest(req, missing) => !req.readOnly && WritesOnly(missing)
    case CommitRequest(req) => !req.readOnly
    case LocalPreAccept(req, _) => !req.readOnly
    case LocalAccept(req, _) => !req.readOnly
    case LocalCommit(req, _) => !req.readOnly
    case MissingInstances(missing) => WritesOnly(missing)
    case _ => true
  }

  lemma {:induction false} AddMissingNoReads(m: InstanceMap, insts: seq<Instance>)
    requires NoReads(m) && WritesOnly(insts)
    ensures NoReads(AddMissing(m, insts))
  {
    if insts != [] {
      AddMissingNoReads(m, insts[..|insts| - 1]);
    }
  }

  lemma UpdateNoReads(m: InstanceMap, x: InstanceID, i: Instance)
    requires NoReads(m) && !i.readOnly
    ensures NoReads(m[x := i])
  {
  }

  lemma PhaseNoReads(m: InstanceMap, inst: Instance, deps: seq<InstanceID>, increment: bool)
    requires NoReads(m) && !inst.readOnly
    ensures NoReads(PreacceptInstance(m, inst, deps, increment))
    ensures NoReads(AcceptInstance(m, inst, increment)) && NoReads(CommitInstance(m, inst, increment))
    ensures !GetOrSet(m, inst)[inst.id].readOnly
  {
    hide NoReads;
    var m1 := GetOrSet(m, inst);
    assert NoReads(m1) by { UpdateNoReads(m, inst.id, Admitted(inst)); }
    assert !m1[inst.id].readOnly by { NoReadsAt(m1, inst.id); }
    var p, a, c := Preaccept(m1[inst.id], inst, deps, increment), Accept(m1[inst.id], inst, increment), Commit(m1[inst.id], inst, increment);
    if p.Some? { UpdateNoReads(m1, inst.id, p.value); }
    if a.Some? { UpdateNoReads(m1, inst.id, a.value); }
    if c.Some? { UpdateNoReads(m1, inst.id, c.value); }
  }

  lemma NoReadsAt(m: InstanceMap, x: InstanceID)
    requires NoReads(m) && x in m
    ensures !m[x].readOnly
  {
  }

  lemma NextNoReads(m: InstanceMap, e: Event)
    requires NoReads(m) && CarriesWrites(e)
    ensures NoReads(Next(m, e))
  {
    hide PreacceptInstance, AcceptInstance, CommitInstance, AddMissing, Elements;
    match e
    case PreAcceptRequest(req, deps) =>
      PhaseNoReads(m, req, deps, false);
      PreacceptFrame(m, req, deps, false);
    case AcceptRequest(req, missing) =>
      AddMissingNoReads(m, missing);
      PhaseNoReads(AddMissing(m, missing), req, [], false);
    case CommitRequest(req) => PhaseNoReads(m, req, [], false);
    case LocalPreAccept(req, deps) => PhaseNoReads(m, req, deps, true);
    case LocalAccept(req, increment) => PhaseNoReads(m, req, [], increment);
    case LocalCommit(req, increment) => PhaseNoReads(m, req, [], increment);
    case MissingInstances(missing) => AddMissingNoReads(m, missing);
    case _ =>
  }

  // ---------- what the index is never asked ----------

  /** A handler names one key, registers only what has not been executed, and
      reports nothing executed. */
  ghost predicate Timely(m: InstanceMap, c: Call) {
    |c.keys| == 1 && !c.Executed? && (c.GetAndSetDeps? || c.Added? ==> !IsExecuted(m, c.id))
  }

  ghost predicate AllTimely(m: InstanceMap, calls: seq<Call>) {
    forall j :: 0 <= j < |calls| ==> Timely(m, calls[j])
  }

  lemma TimelyConcat(m: InstanceMap, a: seq<Call>, b: seq<Call>)
    requires AllTimely(m, a) && AllTimely(m, b)
    ensures AllTimely(m, a + b)
  {
    hide Timely;
  }

  /** What is timely later was timely before. */
  lemma TimelyBefore(m: InstanceMap, m1: InstanceMap, calls: seq<Call>)
    requires AllTimely(m1, calls) && forall x :: IsExecuted(m, x) ==> IsExecuted(m1, x)
    ensures AllTimely(m, calls)
  {
  }

  lemma {:induction false} MissingTimely(m: InstanceMap, insts: seq<Instance>)
    ensures AllTimely(m, MissingCalls(m, insts))
  {
    hide AllTimely;
    if insts == [] {
      NothingIsTimely(m);
    } else {
      var n := |insts| - 1;
      MissingTimely(m, insts[..n]);
      OneMissingTimely(AddMissing(m, insts[..n]), insts[n]);
      StillExecuted(m, insts[..n]);
      TimelyBefore(m, AddMissing(m, insts[..n]), OneMissingCalls(AddMissing(m, insts[..n]), insts[n]));
      TimelyConcat(m, MissingCalls(m, insts[..n]), OneMissingCalls(AddMissing(m, insts[..n]), insts[n]));
    }
  }

  lemma NothingIsTimely(m: InstanceMap)
    ensures AllTimely(m, [])
  {
  }

  lemma OneMissingTimely(m: InstanceMap, inst: Instance)
    ensures AllTimely(m, OneMissingCalls(m, inst))
  {
  }

  lemma StillExecuted(m: InstanceMap, insts: seq<Instance>)
    ensures forall x :: IsExecuted(m, x) ==> IsExecuted(AddMissing(m, insts), x)
  {
    hide AddMissing;
    forall x | IsExecuted(m, x) ensures IsExecuted(AddMissing(m, insts), x) {
      AddMissingKeeps(m, insts, x);
    }
  }

  lemma PhaseTimely(m: InstanceMap, inst: Instance)
    ensures AllTimely(m, PreacceptCalls(m, inst)) && AllTimely(m, AcceptCalls(m, inst)) && AllTimely(m, CommitCalls(m, inst))
  {
    hide Elements;
  }

  lemma CallsAreTimely(m: InstanceMap, e: Event)
    ensures AllTimely(m, CallsOf(m, e))
  {
    hide PreacceptCalls, AcceptCalls, CommitCalls, MissingCalls, AllTimely, AddMissing;
    NothingIsTimely(m);
    match e
    case PreAcceptRequest(req, _) => PhaseTimely(m, req);
    case AcceptRequest(req, missing) =>
      var m1 := AddMissing(m, missing);
      MissingTimely(m, missing);
      PhaseTimely(m1, req);
      StillExecuted(m, missing);
      TimelyBefore(m, m1, AcceptCalls(m1, req));
      TimelyConcat(m, MissingCalls(m, missing), AcceptCalls(m1, req));
      TimelyConcat(m, MissingCalls(m, missing), []);
    case CommitRequest(req) => PhaseTimely(m, req);
    case LocalPreAccept(req, _) => PhaseTimely(m, req);
    case LocalAccept(req, _) => PhaseTimely(m, req);
    case LocalCommit(req, _) => PhaseTimely(m, req);
    case MissingInstances(missing) => MissingTimely(m, missing);
    case _ =>
  }

  predicate AllWrites(calls: seq<Call>) {
    forall j :: 0 <= j < |calls| && (calls[j].GetAndSetDeps? || calls[j].Added?) ==> !calls[j].readOnly
  }

  lemma {:induction false} MissingWrites(m: InstanceMap, insts: seq<Instance>)
    requires WritesOnly(insts)
    ensures AllWrites(MissingCalls(m, insts))
  {
    hide AddMissing, Elements;
    if insts != [] {
      MissingWrites(m, insts[..|insts| - 1]);
    }
  }

  lemma PhaseWrites(m: InstanceMap, inst: Instance)
    requires NoReads(m) && !inst.readOnly
    ensures AllWrites(PreacceptCalls(m, inst)) && AllWrites(AcceptCalls(m, inst)) && AllWrites(CommitCalls(m, inst))
  {
    hide Elements;
  }

  lemma CallsAreWrites(m: InstanceMap, e: Event)
    requires NoReads(m) && CarriesWrites(e)
    ensures AllWrites(CallsOf(m, e))
  {
    hide PreacceptCalls, AcceptCalls, CommitCalls, MissingCalls, AddMissing, NoReads;
    match e
    case PreAcceptRequest(req, _) => PhaseWrites(m, req);
    case AcceptRequest(req, missing) =>
      MissingWrites(m, missing);
      AddMissingNoReads(m, missing);
      PhaseWrites(AddMissing(m, missing), req);
    case CommitRequest(req) => PhaseWrites(m, req);
    case LocalPreAccept(req, _) => PhaseWrites(m, req);
    case LocalAccept(req, _) => PhaseWrites(m, req);
    case LocalCommit(req, _) => PhaseWrites(m, req);
    case MissingInstances(missing) => MissingWrites(m, missing);
    case _ =>
  }

  // ---------- executions ----------

  lemma {:induction false} ExecutedCallsAre(m: InstanceMap, ids: seq<InstanceID>, c: Call)
    requires c in ExecutedCalls(m, ids)
    ensures c.Executed? && c.id in ids && |c.keys| == 1
  {
    if ids != [] {
      var n := |ids| - 1;
      if c in ExecutedCalls(m, ids[..n]) {
        ExecutedCallsAre(m, ids[..n], c);
      }
    }
  }

  lemma {:induction false} ApplyAllExtends(s: Replica, ids: seq<InstanceID>, x: InstanceID)
    ensures s.executed <= ApplyAll(s, ids).executed
    ensures x in ApplyAll(s, ids).executed[|s.executed|..] ==> IsExecuted(ApplyAll(s, ids).instances, x)
  {
    if ids != [] {
      var s1, id := ApplyAll(s, ids[..|ids| - 1]), ids[|ids| - 1];
      ApplyAllExtends(s, ids[..|ids| - 1], x);
      var s2 := Apply(s1, id);
      assert s2.executed == s1.executed || s2.executed[|s.executed|..] == s1.executed[|s.executed|..] + [id];
    }
  }

  lemma ExecutionReports(s: Replica, l: Label, s': Replica, c: Call)
    requires l.Execute? && Step(s, l, s') && c in StepCalls(s, l, s')
    ensures c.Executed? && IsExecuted(s'.instances, c.id) && |c.keys| == 1
  {
    hide IsExecutionGraph, IsExecutionOrder, Flatten, RecordAll, ApplyAll, ExecutedCalls;
    ExecutedCallsAre(s'.instances, s'.executed[|s.executed|..], c);
    var r :| IsRun(s, l.target, r, s');
    ApplyAllExtends(s.(instances := RecordAll(s.instances, r.comps)), Flatten(r.comps)[..r.k], c.id);
  }

  lemma ExecutionNoReads(s: Replica, target: InstanceID, s': Replica)
    requires NoReads(s.instances) && ExecuteStep(s, target, s')
    ensures NoReads(s'.instances)
  {
    hide ExecuteStep;
    ExecuteFrame(s, target, s');
  }

  // ---------- every run is orderly ----------

  ghost predicate MessagesWrite(labels: seq<Label>) {
    forall k :: 0 <= k < |labels| && labels[k].Handle? ==> CarriesWrites(labels[k].event)
  }

  /** Whatever was reported executed is executed. */
  ghost predicate ReportsAreTrue(m: InstanceMap, calls: seq<Call>) {
    forall j :: 0 <= j < |calls| && calls[j].Executed? ==> IsExecuted(m, calls[j].id)
  }

  ghost predicate OneKeyEach(calls: seq<Call>) {
    forall j :: 0 <= j < |calls| ==> |calls[j].keys| == 1
  }

  lemma NoneLateConcat(m: InstanceMap, calls: seq<Call>, more: seq<Call>, p: Path)
    requires NoneLate(calls, p) && ReportsAreTrue(m, calls) && AllTimely(m, more)
    ensures NoneLate(calls + more, p)
  {
    var all := calls + more;
    forall j | |calls| <= j < |all| ensures Timely(m, all[j]) {
      assert all[j] == more[j - |calls|];
    }
  }

  lemma ReportsAreNotLate(calls: seq<Call>, more: seq<Call>, p: Path)
    requires NoneLate(calls, p) && forall j :: 0 <= j < |more| ==> more[j].Executed?
    ensures NoneLate(calls + more, p)
  {
    var all := calls + more;
    forall j | |calls| <= j < |all| ensures all[j].Executed? {
      assert all[j] == more[j - |calls|];
    }
  }

  lemma StepIsInTime(s: Replica, l: Label, s': Replica, calls: seq<Call>, p: Path)
    requires Step(s, l, s') && NoneLate(calls, p) && ReportsAreTrue(s.instances, calls)
    ensures NoneLate(calls + StepCalls(s, l, s'), p) && ReportsAreTrue(s'.instances, calls + StepCalls(s, l, s'))
    ensures OneKeyEach(StepCalls(s, l, s'))
  {
    hide NoneLate, CallsOf, ExecuteStep, Next, AllTimely, ExecutedCalls;
    var more := StepCalls(s, l, s');
    forall x | IsExecuted(s.instances, x) ensures IsExecuted(s'.instances, x) {
      StepIsLater(s, l, s', x);
    }
    match l {
      case Handle(e) =>
        CallsAreTimely(s.instances, e);
        NoneLateConcat(s.instances, calls, more, p);
        NoReportsAmong(s.instances, more);
      case Execute(target) =>
        forall j | 0 <= j < |more| ensures more[j].Executed? && IsExecuted(s'.instances, more[j].id) && |more[j].keys| == 1 {
          ExecutionReports(s, l, s', more[j]);
        }
        ReportsAreNotLate(calls, more, p);
    }
  }

  lemma StepWrites(s: Replica, l: Label, s': Replica)
    requires Step(s, l, s') && (l.Handle? ==> CarriesWrites(l.event)) && NoReads(s.instances)
    ensures AllWrites(StepCalls(s, l, s')) && NoReads(s'.instances)
  {
    hide NoReads, CarriesWrites, CallsOf, ExecuteStep, Next, ExecutedCalls;
    match l {
      case Handle(e) =>
        CallsAreWrites(s.instances, e);
        NextNoReads(s.instances, e);
      case Execute(target) =>
        var more := StepCalls(s, l, s');
        forall j | 0 <= j < |more| ensures more[j].Executed? {
          ExecutionReports(s, l, s', more[j]);
        }
        ExecutionNoReads(s, target, s');
    }
  }

  lemma NoReportsAmong(m: InstanceMap, calls: seq<Call>)
    requires AllTimely(m, calls)
    ensures OneKeyEach(calls) && forall j :: 0 <= j < |calls| ==> !calls[j].Executed?
  {
    assert forall j :: 0 <= j < |calls| ==> Timely(m, calls[j]);
  }

  /** In every run of a replica, whatever it is sent, nothing is registered after it
      was reported executed, and every call names one key. */
  lemma {:induction false} RunIsInTime(states: seq<Replica>, labels: seq<Label>, n: nat, p: Path)
    requires IsTrace(states, labels) && states[0] == EMPTY && n <= |labels|
    ensures NoneLate(AllCalls(states, labels, n), p) && ReportsAreTrue(states[n].instances, AllCalls(states, labels, n))
    ensures OneKeyEach(AllCalls(states, labels, n))
  {
    hide Step, StepCalls;
    if n > 0 {
      RunIsInTime(states, labels, n - 1, p);
      StepIsInTime(states[n - 1], labels[n - 1], states[n], AllCalls(states, labels, n - 1), p);
    }
  }

  lemma {:induction false} RunWrites(states: seq<Replica>, labels: seq<Label>, n: nat)
    requires IsTrace(states, labels) && states[0] == EMPTY && MessagesWrite(labels) && n <= |labels|
    ensures AllWrites(AllCalls(states, labels, n)) && NoReads(states[n].instances)
  {
    hide Step, StepCalls, CarriesWrites;
    if n > 0 {
      RunWrites(states, labels, n - 1);
      StepWrites(states[n - 1], labels[n - 1], states[n]);
    }
  }

  /** The calls a replica makes on its index are orderly at every path. */
  lemma RunIsOrderly(states: seq<Replica>, labels: seq<Label>, n: nat, p: Path)
    requires IsTrace(states, labels) && states[0] == EMPTY && MessagesWrite(labels) && n <= |labels|
    ensures Orderly(AllCalls(states, labels, n), p)
    ensures ReportsAreTrue(states[n].instances, AllCalls(states, labels, n)) && NoReads(states[n].instances)
  {
    hide NoneLate, IsTrace, MessagesWrite, AllCalls, NoReads;
    RunIsInTime(states, labels, n, p);
    RunWrites(states, labels, n);
  }

  /** What the index of a replica holds at a key, in every run, whatever the replica
      is sent: right after a pre-accept exactly the ids that were registered and not
      both executed and acknowledged before, reads and writes apart. */
  lemma IndexHoldsExactly(states: seq<Replica>, labels: seq<Label>, n: nat, p: Path, j: nat, x: InstanceID)
    requires IsTrace(states, labels) && states[0] == EMPTY && n <= |labels| && |p| == 1
    requires j < |AllCalls(states, labels, n)| && AllCalls(states, labels, n)[j].GetAndSetDeps? && AllCalls(states, labels, n)[j].keys == p
    ensures var calls := AllCalls(states, labels, n);
      var done := WasExecuted(calls[..j], p, x) && WasAcknowledged(calls[..j], p, x);
      && (x in SetsAfter(calls[..j + 1], p).writeIds <==> WasRegisteredAs(calls[..j + 1], p, x, false) && !done)
      && (x in SetsAfter(calls[..j + 1], p).readIds <==> WasRegisteredAs(calls[..j + 1], p, x, true) && !done)
  {
    hide Step, AllCalls, SetsAfter, WasRegisteredAs, WasExecuted, WasAcknowledged;
    var calls := AllCalls(states, labels, n);
    RunIsInTime(states, labels, n, p);
    assert calls[..j + 1] == calls[..j] + [calls[j]];
    assert NoneLate(calls[..j + 1], p) by {
      assert forall i :: 0 <= i < j + 1 ==> calls[..j + 1][i] == calls[i];
    }
    hide NoneLate;
    KeptExactly(calls[..j], calls[j], p, x);
  }

  // ---------- new writes reach all earlier ones ----------

  lemma PhaseIsOneCall(m: InstanceMap, inst: Instance, c: Call)
    requires c.GetAndSetDeps?
    ensures c !in AcceptCalls(m, inst) && c !in CommitCalls(m, inst)
    ensures c in PreacceptCalls(m, inst) ==> PreacceptCalls(m, inst) == [c] && |c.keys| == 1
  {
    hide Elements;
  }

  /** A pre-accept that takes place makes no other call. */
  lemma PreacceptIsOneCall(m: InstanceMap, e: Event, c: Call)
    requires c.GetAndSetDeps? && c in CallsOf(m, e)
    ensures CallsOf(m, e) == [c] && |c.keys| == 1
  {
    hide AddMissing, MissingCalls, PreacceptCalls, AcceptCalls, CommitCalls;
    match e
    case PreAcceptRequest(req, _) => PhaseIsOneCall(m, req, c);
    case AcceptRequest(req, missing) =>
      NoPreacceptAmong(m, missing, c);
      PhaseIsOneCall(AddMissing(m, missing), req, c);
    case CommitRequest(req) => PhaseIsOneCall(m, req, c);
    case LocalPreAccept(req, _) => PhaseIsOneCall(m, req, c);
    case LocalAccept(req, _) => PhaseIsOneCall(m, req, c);
    case LocalCommit(req, _) => PhaseIsOneCall(m, req, c);
    case MissingInstances(missing) => NoPreacceptAmong(m, missing, c);
    case _ =>
  }

  lemma {:induction false} NoPreacceptAmong(m: InstanceMap, insts: seq<Instance>, c: Call)
    requires c.GetAndSetDeps?
    ensures c !in MissingCalls(m, insts)
  {
    hide Elements, AddMissing;
    if insts != [] {
      NoPreacceptAmong(m, insts[..|insts| - 1], c);
    }
  }

  // ---------- dependencies as the instances carry them ----------

  function DepsOf(e: Event): seq<InstanceID> {
    match e
    case PreAcceptRequest(_, deps) => deps
    case LocalPreAccept(_, deps) => deps
    case _ => []
  }

  lemma PreacceptSetsDeps(m: InstanceMap, e: Event, c: Call)
    requires c.GetAndSetDeps? && c in CallsOf(m, e)
    ensures c.id in Next(m, e) && Next(m, e)[c.id].deps == DepsOf(e)
  {
    hide AddMissing, MissingCalls, PreacceptCalls, AcceptCalls, CommitCalls, PreacceptInstance, HandlePreAccept;
    match e
    case PreAcceptRequest(req, deps) =>
      PhaseSetsDeps(m, req, deps, false, c);
      HandlePreAcceptDecides(m, req, deps);
    case LocalPreAccept(req, deps) => PhaseSetsDeps(m, req, deps, true, c);
    case AcceptRequest(req, missing) =>
      NoPreacceptAmong(m, missing, c);
      PhaseIsOneCall(AddMissing(m, missing), req, c);
    case CommitRequest(req) => PhaseIsOneCall(m, req, c);
    case LocalAccept(req, _) => PhaseIsOneCall(m, req, c);
    case LocalCommit(req, _) => PhaseIsOneCall(m, req, c);
    case MissingInstances(missing) => NoPreacceptAmong(m, missing, c);
    case _ =>
  }

  lemma PhaseSetsDeps(m: InstanceMap, inst: Instance, deps: seq<InstanceID>, increment: bool, c: Call)
    requires c.GetAndSetDeps? && c in PreacceptCalls(m, inst)
    ensures c.id == inst.id && c.id in PreacceptInstance(m, inst, deps, increment)
    ensures PreacceptInstance(m, inst, deps, increment)[c.id].deps == deps
  {
    hide PreacceptInstance, Elements;
    PreacceptDecides(m, inst, deps, increment);
  }

  /** Every pre-accept takes the dependencies that the index returns for it. */
  ghost predicate DepsFromIndex(states: seq<Replica>, labels: seq<Label>)
    requires |states| == |labels| + 1
  {
    forall n, c: Call :: 0 <= n < |labels| && labels[n].Handle? && c.GetAndSetDeps? && c in CallsOf(states[n].instances, labels[n].event) ==>
      Elements(DepsOf(labels[n].event)) == Returned(After(AllCalls(states, labels, n)), c)
  }

  lemma PreacceptTakesReturned(states: seq<Replica>, labels: seq<Label>, n: nat, c: Call, y: InstanceID)
    requires IsTrace(states, labels) && DepsFromIndex(states, labels) && n < |labels| && labels[n].Handle?
    requires c.GetAndSetDeps? && c in CallsOf(states[n].instances, labels[n].event)
    ensures c.id in states[n + 1].instances
    ensures y in states[n + 1].instances[c.id].deps <==> y in Returned(After(AllCalls(states, labels, n)), c)
  {
    hide CallsOf, Next, After, Returned, AllCalls;
    assert Step(states[n], labels[n], states[n + 1]);
    PreacceptSetsDeps(states[n].instances, labels[n].event, c);
    assert y in DepsOf(labels[n].event) <==> y in Elements(DepsOf(labels[n].event));
  }

  /** At some point of the run up to n, x listed y as a dependency. */
  ghost predicate Listed(states: seq<Replica>, n: nat, x: InstanceID, y: InstanceID) {
    exists k :: 0 <= k <= n && k < |states| && x in states[k].instances && y in states[k].instances[x].deps
  }

  /** What was learned in before and more was learned in before, or by a call in more. */
  lemma LearnedSplits(before: seq<Call>, more: seq<Call>, p: Path, x: InstanceID, y: InstanceID) returns (c: Call)
    requires Learned(before + more, p, x, y)
    ensures || Learned(before, p, x, y)
            || (c in more && c.GetAndSetDeps? && c.id == x && (more == [c] ==> y in Returned(After(before), c)))
  {
    hide After, Returned;
    var calls := before + more;
    var j :| 0 <= j < |calls| && calls[j].GetAndSetDeps? && calls[j].keys == p && calls[j].id == x
      && y in Returned(After(calls[..j]), calls[j]);
    c := calls[j];
    if j < |before| {
      assert before[j] == calls[j] && before[..j] == calls[..j];
    } else {
      assert c == more[j - |before|];
      assert more == [c] ==> calls[..j] == before;
    }
  }

  /** What x learned from the index it listed. */
  lemma {:induction false} LearnedIsListed(states: seq<Replica>, labels: seq<Label>, n: nat, p: Path, x: InstanceID, y: InstanceID)
    requires IsTrace(states, labels) && DepsFromIndex(states, labels) && n <= |labels|
    requires Learned(AllCalls(states, labels, n), p, x, y)
    ensures Listed(states, n, x, y)
  {
    hide Step, CallsOf, After, Returned, DepsFromIndex, Learned, StepCalls;
    assert n > 0 by { NothingLearned(p, x, y); }
    var before, more := AllCalls(states, labels, n - 1), StepCalls(states[n - 1], labels[n - 1], states[n]);
    var c := LearnedSplits(before, more, p, x, y);
    if Learned(before, p, x, y) {
      LearnedIsListed(states, labels, n - 1, p, x, y);
    } else {
      OnlyHandlersAsk(states[n - 1], labels[n - 1], states[n], c);
      PreacceptIsOneCall(states[n - 1].instances, labels[n - 1].event, c);
      PreacceptTakesReturned(states, labels, n - 1, c, y);
    }
  }

  lemma NothingLearned(p: Path, x: InstanceID, y: InstanceID)
    ensures !Learned([], p, x, y)
  {
  }

  lemma OnlyHandlersAsk(s: Replica, l: Label, s': Replica, c: Call)
    requires c in StepCalls(s, l, s') && c.GetAndSetDeps?
    ensures l.Handle? && StepCalls(s, l, s') == CallsOf(s.instances, l.event)
  {
    hide CallsOf, ExecutedCalls;
    if l.Execute? {
      ExecutedCallsAre(s'.instances, s'.executed[|s.executed|..], c);
    }
  }

  /** x lists w in m, or is w and was registered before. */
  ghost predicate LeadsTo(m: InstanceMap, calls: seq<Call>, p: Path, x: InstanceID, w: InstanceID) {
    (x in m && w in m[x].deps) || (w == x && WasRegistered(calls, p, w))
  }

  /** In every run of a replica: when x is pre-accepted, it comes to depend, directly
      or through others, on every y registered under the same key before. The first
      step is a dependency it now lists, unless it had been registered before. */
  lemma NewWriteReachesEarlier(states: seq<Replica>, labels: seq<Label>, n: nat, p: Path, x: InstanceID, readOnly: bool, y: InstanceID)
    requires IsTrace(states, labels) && states[0] == EMPTY && MessagesWrite(labels) && n < |labels|
    requires DepsFromIndex(states, labels)
    requires labels[n].Handle? && GetAndSetDeps(p, x, readOnly) in CallsOf(states[n].instances, labels[n].event)
    requires WasRegistered(AllCalls(states, labels, n), p, y)
    ensures DependsOn(AllCalls(states, labels, n + 1), p, x, y)
    ensures x in states[n + 1].instances
    ensures exists w :: DependsOn(AllCalls(states, labels, n), p, w, y) && LeadsTo(states[n + 1].instances, AllCalls(states, labels, n), p, x, w)
  {
    hide Step, MessagesWrite, NoReads, ReportsAreTrue, CallsOf, Orderly, WasRegistered, DependsOn, DepsFromIndex, SetsAfter, After, Returned;
    var c, calls := GetAndSetDeps(p, x, readOnly), AllCalls(states, labels, n);
    PreacceptIsOneCall(states[n].instances, labels[n].event, c);
    RunIsOrderly(states, labels, n + 1, p);
    assert AllCalls(states, labels, n + 1) == calls + [c];
    NewWriteReachesAll(calls, c, p, y);
    OrderlyPrefix(calls, c, p);
    Coverage(calls, p, y);
    var w :| w in SetsAfter(calls, p).writeIds && DependsOn(calls, p, w, y);
    PreacceptTakesReturned(states, labels, n, c, w);
    if w == x {
      WritesWereRegistered(calls, p, x);
    } else {
      NewWriteLearns(calls, c, p, w);
    }
  }

  // ---------- what is known is registered ----------

  /** An accept or a commit brings an instance with a status of at most
      pre-accepted, and no earlier list of missing instances has it. */
  predicate ArrivesUnregistered(e: Event, x: InstanceID) {
    match e
    case AcceptRequest(req, missing) =>
      req.id == x && req.status <= PREACCEPTED && forall k :: 0 <= k < |missing| ==> missing[k].id != x
    case CommitRequest(req) => req.id == x && req.status <= PREACCEPTED
    case LocalAccept(req, _) => req.id == x && req.status <= PREACCEPTED
    case LocalCommit(req, _) => req.id == x && req.status <= PREACCEPTED
    case _ => false
  }

  ghost predicate RegistersAmong(calls: seq<Call>, p: Path, x: InstanceID) {
    exists c :: c in calls && Registers(c, p, x)
  }

  lemma RegistersConcat(a: seq<Call>, b: seq<Call>, p: Path, x: InstanceID)
    ensures RegistersAmong(a + b, p, x) <==> RegistersAmong(a, p, x) || RegistersAmong(b, p, x)
  {
    assert forall c :: c in a + b <==> c in a || c in b;
  }

  /** A phase that meets an instance for the first time. */
  lemma PreacceptRegisters(m: InstanceMap, inst: Instance)
    requires inst.id !in m
    ensures RegistersAmong(PreacceptCalls(m, inst), KeysOf(inst), inst.id)
  {
    hide Elements;
    var i := GetOrSet(m, inst)[inst.id];
    var c := if inst.status > PREACCEPTED then AddedFor(i) else GetAndSetDeps(KeysOf(i), inst.id, i.readOnly);
    assert PreacceptCalls(m, inst) == [c] && c in [c];
  }

  lemma AdmissionRegisters(m: InstanceMap, inst: Instance)
    requires inst.id !in m
    ensures RegistersAmong(GetOrSetCalls(m, inst), KeysOf(inst), inst.id) <==> inst.status > PREACCEPTED
  {
    hide Elements;
    var c := AddedFor(Admitted(inst));
    assert c in [c];
  }

  lemma ReportRegistersNothing(c: Call, p: Path, x: InstanceID)
    requires c.Acknowledged?
    ensures !RegistersAmong([c], p, x) && !RegistersAmong([], p, x)
  {
  }

  lemma PhaseRegisters(m: InstanceMap, inst: Instance)
    requires inst.id !in m
    ensures RegistersAmong(AcceptCalls(m, inst), KeysOf(inst), inst.id) <==> inst.status > PREACCEPTED
    ensures RegistersAmong(CommitCalls(m, inst), KeysOf(inst), inst.id) <==> inst.status > PREACCEPTED
  {
    hide Elements, RegistersAmong, GetOrSetCalls;
    var g, p, x := GetOrSetCalls(m, inst), KeysOf(inst), inst.id;
    var c := Acknowledged(KeysOf(GetOrSet(m, inst)[x]), x, Elements(inst.deps));
    AdmissionRegisters(m, inst);
    ReportRegistersNothing(c, p, x);
    RegistersConcat(g, [c], p, x);
    RegistersConcat(g, [], p, x);
  }

  /** A missing instance that is new is registered under the key it was first sent with. */
  lemma {:induction false} MissingRegisters(m: InstanceMap, insts: seq<Instance>, x: InstanceID)
    requires x !in m && x in AddMissing(m, insts)
    ensures RegistersAmong(MissingCalls(m, insts), KeysOf(AddMissing(m, insts)[x]), x)
  {
    hide Elements;
    var n := |insts| - 1;
    var before, m1 := MissingCalls(m, insts[..n]), AddMissing(m, insts[..n]);
    var p := KeysOf(AddMissing(m, insts)[x]);
    RegistersConcat(before, OneMissingCalls(m1, insts[n]), p, x);
    if x in m1 {
      MissingRegisters(m, insts[..n], x);
    } else {
      var c := AddedFor(Admitted(insts[n]));
      assert c in GetOrSetCalls(m1, insts[n]) + [c];
    }
  }

  lemma NothingRegisters(p: Path, x: InstanceID)
    ensures !RegistersAmong([], p, x)
  {
  }

  /** An instance that becomes known is registered under its key in the same
      step if and only if it does not arrive as described above. */
  lemma NewIsRegistered(m: InstanceMap, e: Event, x: InstanceID)
    requires x !in m && x in Next(m, e)
    ensures RegistersAmong(CallsOf(m, e), KeysOf(Next(m, e)[x]), x) <==> !ArrivesUnregistered(e, x)
  {
    hide RegistersAmong, PreacceptCalls, AcceptCalls, CommitCalls, MissingCalls, AddMissing,
         PreacceptInstance, AcceptInstance, CommitInstance, Decided;
    match e
    case PreAcceptRequest(req, deps) =>
      HandlePreAcceptDecides(m, req, deps);
      NewByPreaccept(m, req, deps, false, x);
    case LocalPreAccept(req, deps) => NewByPreaccept(m, req, deps, true, x);
    case CommitRequest(req) => NewByCommit(m, req, false, x);
    case LocalCommit(req, increment) => NewByCommit(m, req, increment, x);
    case LocalAccept(req, increment) => NewByAccept(m, req, increment, x);
    case MissingInstances(missing) => MissingRegisters(m, missing, x);
    case AcceptRequest(req, missing) =>
      var m1 := AddMissing(m, missing);
      var p := KeysOf(Next(m, e)[x]);
      AddMissingHas(m, missing, x);
      RegistersConcat(MissingCalls(m, missing), AcceptCalls(m1, req), p, x);
      RegistersConcat(MissingCalls(m, missing), [], p, x);
      NothingRegisters(p, x);
      if x in m1 {
        MissingRegisters(m, missing, x);
        KeyIsKept(m1, req, x);
      } else {
        NoneMissing(m, missing, p, x);
        NewByAccept(m1, req, false, x);
      }
    case _ =>
  }

  lemma NewByPreaccept(m: InstanceMap, inst: Instance, deps: seq<InstanceID>, increment: bool, x: InstanceID)
    requires x !in m && x in PreacceptInstance(m, inst, deps, increment)
    ensures x == inst.id && RegistersAmong(PreacceptCalls(m, inst), KeysOf(PreacceptInstance(m, inst, deps, increment)[x]), x)
  {
    hide RegistersAmong, PreacceptCalls, PreacceptInstance;
    PreacceptDecides(m, inst, deps, increment);
    PreacceptRegisters(m, inst);
  }

  lemma NewByAccept(m: InstanceMap, inst: Instance, increment: bool, x: InstanceID)
    requires x !in m && x in AcceptInstance(m, inst, increment)
    ensures x == inst.id
    ensures RegistersAmong(AcceptCalls(m, inst), KeysOf(AcceptInstance(m, inst, increment)[x]), x) <==> inst.status > PREACCEPTED
  {
    hide RegistersAmong, AcceptCalls, AcceptInstance;
    AcceptDecides(m, inst, increment);
    PhaseRegisters(m, inst);
  }

  lemma NewByCommit(m: InstanceMap, inst: Instance, increment: bool, x: InstanceID)
    requires x !in m && x in CommitInstance(m, inst, increment)
    ensures x == inst.id
    ensures RegistersAmong(CommitCalls(m, inst), KeysOf(CommitInstance(m, inst, increment)[x]), x) <==> inst.status > PREACCEPTED
  {
    hide RegistersAmong, CommitCalls, CommitInstance;
    CommitInstanceDecides(m, inst, increment);
    PhaseRegisters(m, inst);
  }

  lemma KeyIsKept(m: InstanceMap, inst: Instance, x: InstanceID)
    requires x in m
    ensures x in AcceptInstance(m, inst, false) && KeysOf(AcceptInstance(m, inst, false)[x]) == KeysOf(m[x])
  {
    hide AcceptInstance;
    AcceptDecides(m, inst, false);
  }

  lemma {:induction false} NoneMissing(m: InstanceMap, insts: seq<Instance>, p: Path, x: InstanceID)
    requires forall k :: 0 <= k < |insts| ==> insts[k].id != x
    ensures !RegistersAmong(MissingCalls(m, insts), p, x)
  {
    hide Elements, AddMissing;
    if insts != [] {
      var n := |insts| - 1;
      NoneMissing(m, insts[..n], p, x);
      RegistersConcat(MissingCalls(m, insts[..n]), OneMissingCalls(AddMissing(m, insts[..n]), insts[n]), p, x);
    }
  }

  /** In every run: whatever a replica knows was registered under its key, if no
      accept or commit brought it with too low a status. */
  lemma {:induction false} KnownIsRegistered(states: seq<Replica>, labels: seq<Label>, n: nat, x: InstanceID)
    requires IsTrace(states, labels) && states[0] == EMPTY && n <= |labels| && x in states[n].instances
    requires forall k :: 0 <= k < n && labels[k].Handle? && x !in states[k].instances ==> !ArrivesUnregistered(labels[k].event, x)
    ensures WasRegistered(AllCalls(states, labels, n), KeysOf(states[n].instances[x]), x)
  {
    hide Step, StepCalls, ArrivesUnregistered, Registers, KeysOf;
    assert n > 0;
    var before, more := AllCalls(states, labels, n - 1), StepCalls(states[n - 1], labels[n - 1], states[n]);
    assert Step(states[n - 1], labels[n - 1], states[n]);
    var p := KeysOf(states[n].instances[x]);
    if x in states[n - 1].instances {
      KnownIsRegistered(states, labels, n - 1, x);
      SameKey(states[n - 1], labels[n - 1], states[n], x);
      RegisteredStays(before, more, p, x);
    } else {
      NewInStep(states[n - 1], labels[n - 1], states[n], x);
      RegisteredByMore(before, more, p, x);
    }
  }

  lemma SameKey(s: Replica, l: Label, s': Replica, x: InstanceID)
    requires Step(s, l, s') && x in s.instances
    ensures x in s'.instances && KeysOf(s'.instances[x]) == KeysOf(s.instances[x])
  {
    hide Step;
    StepIsLater(s, l, s', x);
  }

  lemma NewInStep(s: Replica, l: Label, s': Replica, x: InstanceID)
    requires Step(s, l, s') && x !in s.instances && x in s'.instances
    requires l.Handle? ==> !ArrivesUnregistered(l.event, x)
    ensures RegistersAmong(StepCalls(s, l, s'), KeysOf(s'.instances[x]), x)
  {
    hide ExecuteStep, Next, CallsOf, ArrivesUnregistered, RegistersAmong;
    match l
    case Handle(e) => NewIsRegistered(s.instances, e, x);
    case Execute(target) => ExecuteFrame(s, target, s');
  }

  lemma RegisteredStays(before: seq<Call>, more: seq<Call>, p: Path, x: InstanceID)
    requires WasRegistered(before, p, x)
    ensures WasRegistered(before + more, p, x)
  {
    hide Registers;
    var j :| 0 <= j < |before| && Registers(before[j], p, x);
    assert Registers((before + more)[j], p, x);
  }

  lemma RegisteredByMore(before: seq<Call>, more: seq<Call>, p: Path, x: InstanceID)
    requires RegistersAmong(more, p, x)
    ensures WasRegistered(before + more, p, x)
  {
    hide Registers;
    var c :| c in more && Registers(c, p, x);
    var j :| 0 <= j < |more| && more[j] == c;
    assert Registers((before + more)[|before| + j], p, x);
  }

  /** So a new write comes to depend on every instance with its key that the
      replica knows. */
  lemma NewWriteReachesKnown(states: seq<Replica>, labels: seq<Label>, n: nat, p: Path, x: InstanceID, readOnly: bool, y: InstanceID)
    requires IsTrace(states, labels) && states[0] == EMPTY && MessagesWrite(labels) && DepsFromIndex(states, labels) && n < |labels|
    requires labels[n].Handle? && GetAndSetDeps(p, x, readOnly) in CallsOf(states[n].instances, labels[n].event)
    requires y in states[n].instances && KeysOf(states[n].instances[y]) == p
    requires forall k :: 0 <= k < n && labels[k].Handle? && y !in states[k].instances ==> !ArrivesUnregistered(labels[k].event, y)
    ensures DependsOn(AllCalls(states, labels, n + 1), p, x, y)
  {
    hide Step, MessagesWrite, DepsFromIndex, CallsOf, ArrivesUnregistered, DependsOn, WasRegistered, KeysOf, LeadsTo;
    KnownIsRegistered(states, labels, n, y);
    NewWriteReachesEarlier(states, labels, n, p, x, readOnly, y);
  }

  /** An accept or commit that takes place acknowledges exactly its dependencies,
      under the key of the instance; one that does not acknowledges nothing. */
  lemma PhaseAcknowledges(m: InstanceMap, inst: Instance, c: Call)
    requires c.Acknowledged?
    ensures c in AcceptCalls(m, inst) <==>
      Found(m, inst).status <= ACCEPTED && c.keys == [Found(m, inst).command.key] && c.id == inst.id && forall y :: y in c.deps <==> y in inst.deps
    ensures c in CommitCalls(m, inst) <==>
      Found(m, inst).status <= COMMITTED && c.keys == [Found(m, inst).command.key] && c.id == inst.id && forall y :: y in c.deps <==> y in inst.deps
    ensures c !in PreacceptCalls(m, inst)
  {
    assert forall y :: y in inst.deps <==> y in Elements(inst.deps);
    assert c.deps == Elements(inst.deps) <==> forall y :: y in c.deps <==> y in inst.deps;
  }

  // ---------- what is executed is reported ----------

  lemma {:induction false} ExecutedCallsHave(m: InstanceMap, ids: seq<InstanceID>, x: InstanceID)
    requires x in ids && x in m
    ensures Executed([m[x].command.key], x, Elements(m[x].deps)) in ExecutedCalls(m, ids)
  {
    var n := |ids| - 1;
    if x in ids[..n] {
      ExecutedCallsHave(m, ids[..n], x);
    }
  }

  lemma {:induction false} ExecutedAreKnown(s: Replica, ids: seq<InstanceID>, x: InstanceID)
    requires x in ApplyAll(s, ids).executed && x !in s.executed
    ensures x in ApplyAll(s, ids).instances
  {
    var s1 := ApplyAll(s, ids[..|ids| - 1]);
    if x in s1.executed {
      ExecutedAreKnown(s, ids[..|ids| - 1], x);
    }
  }

  /** Every instance a step adds to the log is reported executed, with its key and dependencies. */
  lemma NewlyExecutedIsReported(s: Replica, l: Label, s': Replica, x: InstanceID)
    requires Step(s, l, s') && x in s'.executed && x !in s.executed
    ensures x in s'.instances
    ensures Executed([s'.instances[x].command.key], x, Elements(s'.instances[x].deps)) in StepCalls(s, l, s')
  {
    hide IsExecutionGraph, IsExecutionOrder, Flatten, RecordAll, ApplyAll, ExecutedCalls, Next, Elements;
    var r :| IsRun(s, l.target, r, s');
    var s1, ids := s.(instances := RecordAll(s.instances, r.comps)), Flatten(r.comps)[..r.k];
    ApplyAllExtends(s1, ids, x);
    ExecutedAreKnown(s1, ids, x);
    assert x in s'.executed[|s.executed|..] by {
      var j :| 0 <= j < |s'.executed| && s'.executed[j] == x;
      assert j < |s.executed| ==> s.executed[j] == x;
    }
    ExecutedCallsHave(s'.instances, s'.executed[|s.executed|..], x);
  }

  // ---------- no read-only flag ever arises ----------

  type System = map<NodeId, Replica>

  /** The instances an event brings to a replica. */
  function Brought(e: Event): seq<Instance> {
    match e
    case PreAcceptRequest(req, _) => [req]
    case AcceptRequest(req, missing) => [req] + missing
    case CommitRequest(req) => [req]
    case LocalPreAccept(req, _) => [req]
    case LocalAccept(req, _) => [req]
    case LocalCommit(req, _) => [req]
    case MissingInstances(missing) => missing
    case _ => []
  }

  /** i is marked read only only if some replica has marked its own; a new
      instance is not marked. */
  ghost predicate HasSource(sys: System, i: Instance) {
    i.readOnly ==> exists v, x :: v in sys && x in sys[v].instances && sys[v].instances[x].readOnly
  }

  ghost predicate Sourced(sys: System, l: Label) {
    l.Handle? ==> forall k :: 0 <= k < |Brought(l.event)| ==> HasSource(sys, Brought(l.event)[k])
  }

  /** Replicas take steps one at a time, with messages that stem from one of them. */
  ghost predicate SystemStep(sys: System, v: NodeId, l: Label, sys': System) {
    v in sys && sys'.Keys == sys.Keys && Sourced(sys, l) && Step(sys[v], l, sys'[v])
    && forall u :: u in sys && u != v ==> sys'[u] == sys[u]
  }

  ghost predicate AllNoReads(sys: System) {
    forall v :: v in sys ==> NoReads(sys[v].instances)
  }

  lemma SourcedCarriesWrites(sys: System, l: Label)
    requires AllNoReads(sys) && Sourced(sys, l) && l.Handle?
    ensures CarriesWrites(l.event)
  {
    var b := Brought(l.event);
    forall k | 0 <= k < |b| ensures !b[k].readOnly {
      assert HasSource(sys, b[k]);
    }
    match l.event
    case PreAcceptRequest(req, _) => assert b[0] == req;
    case AcceptRequest(req, missing) =>
      assert b[0] == req;
      assert forall k :: 0 <= k < |missing| ==> b[k + 1] == missing[k];
    case CommitRequest(req) => assert b[0] == req;
    case LocalPreAccept(req, _) => assert b[0] == req;
    case LocalAccept(req, _) => assert b[0] == req;
    case LocalCommit(req, _) => assert b[0] == req;
    case _ =>
  }

  /** From replicas that hold no read-only instance, none ever arises, and no
      message carries one. */
  lemma NoReadsArise(sys: System, v: NodeId, l: Label, sys': System)
    requires AllNoReads(sys) && SystemStep(sys, v, l, sys')
    ensures AllNoReads(sys') && (l.Handle? ==> CarriesWrites(l.event))
  {
    hide NoReads, Sourced, CarriesWrites, Next, ExecuteStep;
    match l
    case Handle(e) =>
      SourcedCarriesWrites(sys, l);
      NextNoReads(sys[v].instances, e);
    case Execute(target) => ExecutionNoReads(sys[v], target, sys'[v]);
  }

  /** Over whole runs of a system that starts empty: no replica ever holds a
      read-only instance, and no message carries one. */
  lemma {:induction false} NoReadsEver(systems: seq<System>, nodes: seq<NodeId>, labels: seq<Label>, n: nat)
    requires |systems| == |labels| + 1 && |nodes| == |labels| && n < |systems|
    requires forall v :: v in systems[0] ==> systems[0][v] == EMPTY
    requires forall k :: 0 <= k < |labels| ==> SystemStep(systems[k], nodes[k], labels[k], systems[k + 1])
    ensures AllNoReads(systems[n]) && MessagesWrite(labels[..n])
  {
    hide SystemStep, CarriesWrites;
    if n > 0 {
      NoReadsEver(systems, nodes, labels, n - 1);
      NoReadsArise(systems[n - 1], nodes[n - 1], labels[n - 1], systems[n]);
      assert labels[..n] == labels[..n - 1] + [labels[n - 1]];
    }
  }
}
