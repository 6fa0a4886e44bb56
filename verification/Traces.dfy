/** Whole runs of one replica: message handlers, leader phases and executions
    in any order. */
module Traces {
  import opened Ids
  import opened Instructions
  import opened Instances
  import opened Graphs
  import opened ExecutionOrder
  import opened Agreement
  import opened Handlers

  datatype Label = Handle(event: Event) | Execute(target: InstanceID)

  ghost predicate Step(s: Replica, l: Label, s': Replica) {
    match l
    case Handle(e) => s' == s.(instances := Next(s.instances, e))
    case Execute(target) => ExecuteStep(s, target, s')
  }

  /** states[k] goes to states[k + 1] by labels[k]. */
  ghost predicate IsTrace(states: seq<Replica>, labels: seq<Label>) {
    && |states| == |labels| + 1
    && (forall k :: 0 <= k < |labels| ==> Step(states[k], labels[k], states[k + 1]))
  }

  const EMPTY: Replica := Replica(map[], [], [])

  // ---------- what execution changes ----------

  /** Execution changes nothing of an instance but its status, and that only
      from committed to executed, and its recorded component. */
  predicate OnlyExecuted(i: Instance, i': Instance) {
    && i' == i.(status := i'.status, scc := i'.scc)
    && (i'.status == i.status || (i.status == COMMITTED && i'.status == EXECUTED))
  }

  ghost predicate ExecutionFrame(m: InstanceMap, m': InstanceMap) {
    m'.Keys == m.Keys && forall x :: x in m ==> OnlyExecuted(m[x], m'[x])
  }

  lemma {:induction false} ApplyAllFrame(s: Replica, ids: seq<InstanceID>)
    ensures ExecutionFrame(s.instances, ApplyAll(s, ids).instances)
  {
    if ids != [] {
      ApplyAllFrame(s, ids[..|ids| - 1]);
    }
  }

  lemma RecordFrame(m: InstanceMap, comps: seq<seq<InstanceID>>)
    ensures ExecutionFrame(m, RecordAll(m, comps))
  {
    forall x | x in m ensures OnlyExecuted(m[x], RecordAll(m, comps)[x]) {
      RecordAllFrame(m, comps, x);
    }
  }

  lemma ExecuteFrame(s: Replica, target: InstanceID, s': Replica)
    requires ExecuteStep(s, target, s')
    ensures ExecutionFrame(s.instances, s'.instances)
  {
    hide IsExecutionGraph, IsExecutionOrder, Flatten, RecordAll, ApplyAll;
    var r :| IsRun(s, target, r, s');
    RecordFrame(s.instances, r.comps);
    ApplyAllFrame(s.(instances := RecordAll(s.instances, r.comps)), Flatten(r.comps)[..r.k]);
  }

  // ---------- per instance, over a whole run ----------

  /** i' is a later state of i: its status has not gone back and its command is
      the same; once it was executed, its dependencies and noop flag are too. */
  predicate Later(i: Instance, i': Instance) {
    && i'.command == i.command
    && i.status <= i'.status
    && (i.status >= EXECUTED ==> i'.deps == i.deps && i'.noop == i.noop)
  }

  lemma StepIsLater(s: Replica, l: Label, s': Replica, x: InstanceID)
    requires Step(s, l, s') && x in s.instances
    ensures x in s'.instances && Later(s.instances[x], s'.instances[x])
  {
    hide ExecuteStep, Next;
    match l
    case Handle(e) => NextIsFrame(s.instances, e);
    case Execute(target) => ExecuteFrame(s, target, s');
  }

  lemma {:induction false} StatusNeverFalls(states: seq<Replica>, labels: seq<Label>, i: nat, j: nat, x: InstanceID)
    requires IsTrace(states, labels) && i <= j < |states| && x in states[i].instances
    ensures x in states[j].instances && Later(states[i].instances[x], states[j].instances[x])
    decreases j - i
  {
    hide Step;
    if i < j {
      StatusNeverFalls(states, labels, i, j - 1, x);
      StepIsLater(states[j - 1], labels[j - 1], states[j], x);
    }
  }

  /** Once a run has committed c, every later state knows it as committed with
      the same dependencies and noop flag, if later commits of it agree. */
  lemma {:induction false} CommitIsFinal(states: seq<Replica>, labels: seq<Label>, i: nat, j: nat, c: Instance)
    requires IsTrace(states, labels) && i < j < |states|
    requires labels[i].Handle? && Commits(labels[i].event, c) && !IsExecuted(states[i].instances, c.id)
    requires forall k :: i < k < |labels| && labels[k].Handle? ==> CommitAgrees(labels[k].event, c.id, c)
    ensures CommittedAs(states[j].instances, c.id, c)
    decreases j - i
  {
    hide ExecuteStep, Next, CommitAgrees;
    assert Step(states[j - 1], labels[j - 1], states[j]);
    if i + 1 == j {
      CommitDecides(states[i].instances, labels[i].event, c);
    } else {
      CommitIsFinal(states, labels, i, j - 1, c);
      match labels[j - 1]
      case Handle(e) => CommittedStays(states[j - 1].instances, e, c.id, c);
      case Execute(target) => ExecuteFrame(states[j - 1], target, states[j]);
    }
  }

  /** No step from i up to j wraps the ballot of x. */
  ghost predicate NoWrap(states: seq<Replica>, labels: seq<Label>, i: nat, j: nat, x: InstanceID)
    requires |states| == |labels| + 1
  {
    forall k :: i <= k < j && k < |labels| && labels[k].Handle? ==> !Wraps(states[k].instances, labels[k].event, x)
  }

  lemma {:induction false} BallotNeverFalls(states: seq<Replica>, labels: seq<Label>, i: nat, j: nat, x: InstanceID)
    requires IsTrace(states, labels) && i <= j < |states| && x in states[i].instances
    requires NoWrap(states, labels, i, j, x)
    ensures x in states[j].instances && states[i].instances[x].ballot <= states[j].instances[x].ballot
    decreases j - i
  {
    hide Step, Wraps;
    if i < j {
      BallotNeverFalls(states, labels, i, j - 1, x);
      BallotFallsAt(states[j - 1], labels[j - 1], states[j], x);
    }
  }

  /** The ballot of x does not fall at any step from i on. */
  ghost predicate BallotRises(states: seq<Replica>, i: nat, x: InstanceID) {
    forall k :: i <= k < |states| - 1 && x in states[k].instances && x in states[k + 1].instances ==>
      states[k].instances[x].ballot <= states[k + 1].instances[x].ballot
  }

  /** Over any run, ballots only grow exactly when no step wraps one. */
  lemma BallotRisesIffNoWrap(states: seq<Replica>, labels: seq<Label>, i: nat, x: InstanceID)
    requires IsTrace(states, labels)
    ensures BallotRises(states, i, x) <==> NoWrap(states, labels, i, |labels|, x)
  {
    hide Step, Wraps;
    if NoWrap(states, labels, i, |labels|, x) {
      forall k | i <= k < |states| - 1 && x in states[k].instances && x in states[k + 1].instances
        ensures states[k].instances[x].ballot <= states[k + 1].instances[x].ballot
      {
        BallotFallsAt(states[k], labels[k], states[k + 1], x);
      }
    }
    if BallotRises(states, i, x) {
      forall k | i <= k < |labels| && labels[k].Handle? ensures !Wraps(states[k].instances, labels[k].event, x) {
        WrapsIsKnown(states[k].instances, labels[k].event, x);
        if x in states[k].instances {
          BallotFallsAt(states[k], labels[k], states[k + 1], x);
        }
      }
    }
  }

  lemma BallotFallsAt(s: Replica, l: Label, s': Replica, x: InstanceID)
    requires Step(s, l, s') && x in s.instances
    ensures x in s'.instances
    ensures s.instances[x].ballot > s'.instances[x].ballot <==> l.Handle? && Wraps(s.instances, l.event, x)
  {
    hide ExecuteStep, Next, Wraps;
    match l
    case Handle(e) => BallotFallsIffWraps(s.instances, e, x);
    case Execute(target) => ExecuteFrame(s, target, s');
  }

  lemma WrapsIsKnown(m: InstanceMap, e: Event, x: InstanceID)
    ensures Wraps(m, e, x) ==> x in m
  {
  }

  /** Once a replica that knows x has accepted a prepare with ballot b, no
      preaccept or accept request with a ballot of at most b changes x, up to
      the first step that wraps its ballot. */
  lemma PromiseIsKept(states: seq<Replica>, labels: seq<Label>, i: nat, j: nat, x: InstanceID, b: Ballot)
    requires IsTrace(states, labels) && i < j < |states| && NoWrap(states, labels, i + 1, j, x)
    requires labels[i] == Handle(PrepareRequest(x, b)) && x in states[i].instances
    requires PrepareReply(states[i].instances, x, b).accepted
    ensures Binds(states[j].instances, x, b)
  {
    hide Wraps, ExecuteStep, Binds;
    assert Step(states[i], labels[i], states[i + 1]);
    assert states[i + 1].instances[x].ballot == b;
    BallotNeverFalls(states, labels, i + 1, j, x);
    BindsIffHigh(states[j].instances, x, b);
  }

  /** The promise is kept all the way from i to j if and only if no step in
      between wraps the ballot. */
  lemma PromiseIsKeptIffNoWrap(states: seq<Replica>, labels: seq<Label>, i: nat, j: nat, x: InstanceID, b: Ballot)
    requires IsTrace(states, labels) && i < j < |states|
    requires labels[i] == Handle(PrepareRequest(x, b)) && x in states[i].instances
    requires PrepareReply(states[i].instances, x, b).accepted
    ensures (forall k :: i < k <= j ==> Binds(states[k].instances, x, b)) <==> NoWrap(states, labels, i + 1, j, x)
  {
    hide Step, Wraps, Binds, Next, PrepareReply;
    assert b > 0 by { AcceptedIsHigher(states[i].instances, x, b); }
    if NoWrap(states, labels, i + 1, j, x) {
      forall k | i < k <= j ensures Binds(states[k].instances, x, b) {
        PromiseIsKept(states, labels, i, k, x, b);
      }
    }
    if forall k :: i < k <= j ==> Binds(states[k].instances, x, b) {
      forall k | i + 1 <= k < j && k < |labels| && labels[k].Handle? ensures !Wraps(states[k].instances, labels[k].event, x) {
        WrapsIsKnown(states[k].instances, labels[k].event, x);
        if Wraps(states[k].instances, labels[k].event, x) {
          WrapReleases(states[k], labels[k].event, states[k + 1], x, b);
          assert false;
        }
      }
    }
  }

  lemma AcceptedIsHigher(m: InstanceMap, x: InstanceID, b: Ballot)
    requires x in m && PrepareReply(m, x, b).accepted
    ensures b > m[x].ballot
  {
  }

  lemma WrapReleases(s: Replica, e: Event, s': Replica, x: InstanceID, b: Ballot)
    requires Step(s, Handle(e), s') && Wraps(s.instances, e, x) && b > 0
    ensures !Binds(s'.instances, x, b)
  {
    hide Wraps, Binds, Next;
    WrapsToZero(s.instances, e, x);
    BindsIffHigh(s'.instances, x, b);
  }

  // ---------- the execution invariant over a whole run ----------

  lemma HandlerKeepsInv(d: Graph, s: Replica, m': InstanceMap)
    requires Inv(d, s) && Frame(s.instances, m') && CommitsAgree(d, m')
    ensures Inv(d, s.(instances := m'))
  {
    hide Reach, Mutual, CommitsAgree, DepsFirst, ComponentsInIdOrder, SameMembers;
    assert forall x :: IsExecuted(m', x) <==> IsExecuted(s.instances, x);
    assert forall x :: IsCommitted(s.instances, x) ==> IsCommitted(m', x);
    assert forall x :: RecordedExactly(d, s.instances, x) ==> RecordedExactly(d, m', x);
    assert forall x :: Grounded(d, s.instances, x) ==> Grounded(d, m', x);
  }

  /** The instructions of the logged instances that are not noops, in log order. */
  function Commands(m: InstanceMap, log: seq<InstanceID>): seq<Instruction> {
    if log == [] then [] else
      var x := log[|log| - 1];
      Commands(m, log[..|log| - 1]) + (if x in m && !m[x].noop then [m[x].command] else [])
  }

  /** One more in the log adds its command, a noop nothing. */
  lemma CommandsOf(m: InstanceMap, log: seq<InstanceID>, x: InstanceID)
    requires x in m
    ensures Commands(m, []) == []
    ensures m[x].noop ==> Commands(m, log + [x]) == Commands(m, log)
    ensures !m[x].noop ==> Commands(m, log + [x]) == Commands(m, log) + [m[x].command]
  {
    assert (log + [x])[..|log|] == log;
  }

  /** The store has carried out exactly those, each once. */
  predicate AppliedMatches(s: Replica) {
    s.applied == Commands(s.instances, s.executed)
  }

  lemma {:induction false} CommandsDependOnLogged(m: InstanceMap, m': InstanceMap, log: seq<InstanceID>)
    requires forall x :: x in log ==> x in m && x in m' && m'[x].noop == m[x].noop && m'[x].command == m[x].command
    ensures Commands(m', log) == Commands(m, log)
  {
    if log != [] {
      CommandsDependOnLogged(m, m', log[..|log| - 1]);
    }
  }

  ghost predicate LogIsKnown(s: Replica) {
    forall x :: x in s.executed ==> x in s.instances
  }

  lemma ApplyKeepsApplied(s: Replica, x: InstanceID)
    requires AppliedMatches(s) && LogIsKnown(s)
    ensures AppliedMatches(Apply(s, x)) && LogIsKnown(Apply(s, x))
  {
    var s' := Apply(s, x);
    CommandsDependOnLogged(s.instances, s'.instances, s.executed);
    if s' != s {
      assert s'.executed[..|s'.executed| - 1] == s.executed;
    }
  }

  lemma {:induction false} ApplyAllKeepsApplied(s: Replica, ids: seq<InstanceID>)
    requires AppliedMatches(s) && LogIsKnown(s)
    ensures AppliedMatches(ApplyAll(s, ids)) && LogIsKnown(ApplyAll(s, ids))
  {
    hide AppliedMatches, LogIsKnown, Apply;
    if ids != [] {
      ApplyAllKeepsApplied(s, ids[..|ids| - 1]);
      ApplyKeepsApplied(ApplyAll(s, ids[..|ids| - 1]), ids[|ids| - 1]);
    }
  }

  lemma ExecuteKeepsApplied(s: Replica, target: InstanceID, s': Replica)
    requires AppliedMatches(s) && LogIsKnown(s) && ExecuteStep(s, target, s')
    ensures AppliedMatches(s')
  {
    hide IsExecutionGraph, IsExecutionOrder, Flatten, RecordAll, ApplyAll, Commands;
    var r :| IsRun(s, target, r, s');
    RecordFrame(s.instances, r.comps);
    var s1 := s.(instances := RecordAll(s.instances, r.comps));
    CommandsDependOnLogged(s.instances, s1.instances, s.executed);
    ApplyAllKeepsApplied(s1, Flatten(r.comps)[..r.k]);
  }

  ghost predicate Sound(d: Graph, s: Replica) {
    Inv(d, s) && StatusesValid(s.instances) && AppliedMatches(s)
  }

  lemma LoggedIsKnown(d: Graph, s: Replica)
    requires Inv(d, s)
    ensures LogIsKnown(s) && forall x :: x in s.executed ==> IsExecuted(s.instances, x)
  {
    hide CommitsAgree, ExecutedClosed, ComponentsRecorded, DepsFirst, ComponentsInIdOrder;
  }

  lemma StepIsSound(d: Graph, s: Replica, l: Label, s': Replica)
    requires Sound(d, s) && Step(s, l, s') && CommitsAgree(d, s'.instances)
    ensures Sound(d, s')
  {
    hide Inv, Next, IsRun, Commands, CommitsAgree;
    LoggedIsKnown(d, s);
    match l
    case Handle(e) =>
      NextIsFrame(s.instances, e);
      HandlerKeepsInv(d, s, s'.instances);
      CommandsDependOnLogged(s.instances, s'.instances, s.executed);
    case Execute(target) =>
      ExecuteKeepsApplied(s, target, s');
      var r :| IsRun(s, target, r, s');
      RunKeepsInv(d, s, target, r, s');
  }

  lemma EmptyIsSound(d: Graph)
    ensures Sound(d, EMPTY)
  {
  }

  /** d is what every instance is ever committed with along the run. */
  ghost predicate AllCommitsAgree(d: Graph, states: seq<Replica>) {
    forall k :: 0 <= k < |states| ==> CommitsAgree(d, states[k].instances)
  }

  /** Every state of a run in which repeated commits agree is sound. */
  lemma {:induction false} ReachableIsSound(d: Graph, states: seq<Replica>, labels: seq<Label>, k: nat)
    requires IsTrace(states, labels) && states[0] == EMPTY && AllCommitsAgree(d, states) && k < |states|
    ensures Sound(d, states[k])
  {
    hide Step, Sound, CommitsAgree;
    if k == 0 {
      EmptyIsSound(d);
    } else {
      ReachableIsSound(d, states, labels, k - 1);
      StepIsSound(d, states[k - 1], labels[k - 1], states[k]);
    }
  }

  // ---------- what holds of every replica ----------

  /** s is reached from an empty replica by a run in which every instance is
      only ever committed with the dependencies d gives it. */
  ghost predicate Reachable(d: Graph, s: Replica) {
    exists states, labels :: IsTrace(states, labels) && states[0] == EMPTY
      && AllCommitsAgree(d, states) && states[|states| - 1] == s
  }

  lemma EmptyIsReachable(d: Graph)
    ensures Reachable(d, EMPTY)
  {
    assert IsTrace([EMPTY], []) && AllCommitsAgree(d, [EMPTY]);
  }

  lemma ReachableStep(d: Graph, s: Replica, l: Label, s': Replica)
    requires Reachable(d, s) && Step(s, l, s') && CommitsAgree(d, s'.instances)
    ensures Reachable(d, s')
  {
    hide Step, CommitsAgree;
    var states, labels :| IsTrace(states, labels) && states[0] == EMPTY
      && AllCommitsAgree(d, states) && states[|states| - 1] == s;
    var states', labels' := states + [s'], labels + [l];
    assert IsTrace(states', labels') && AllCommitsAgree(d, states');
  }

  lemma ReachableSound(d: Graph, s: Replica)
    requires Reachable(d, s)
    ensures Sound(d, s)
  {
    hide Sound, Step, CommitsAgree;
    var states, labels :| IsTrace(states, labels) && states[0] == EMPTY
      && AllCommitsAgree(d, states) && states[|states| - 1] == s;
    ReachableIsSound(d, states, labels, |states| - 1);
  }

  /** Any two replicas that have both executed an instance and a direct
      dependency of it did so in the same order, whatever they executed when. */
  lemma ExecutionAgreement(d: Graph, s: Replica, t: Replica, x: InstanceID, w: InstanceID)
    requires Reachable(d, s) && Reachable(d, t)
    requires x in s.executed && w in s.executed && x in t.executed && w in t.executed
    requires (x in d && w in d[x]) || Mutual(d, x, w)
    ensures Before(s.executed, w, x) <==> Before(t.executed, w, x)
  {
    hide Inv, Reachable, Before, Mutual, AppliedMatches;
    ReachableSound(d, s);
    ReachableSound(d, t);
    ReplicasAgree(d, s, t, x, w);
  }

  /** An executed instance comes after each direct dependency, except one in its
      own component with a larger id; and all it reaches is known and committed. */
  lemma DependenciesRunFirst(d: Graph, s: Replica, x: InstanceID, w: InstanceID)
    requires Reachable(d, s) && x in s.executed
    ensures x in d && w in d[x] && w != x ==> Before(s.executed, w, x) || (Mutual(d, x, w) && Precedes(x, w))
    ensures Reach(d, x, w) ==> IsCommitted(s.instances, w)
  {
    hide Reachable, AppliedMatches, CommitsAgree, ComponentsRecorded, ComponentsInIdOrder, Before, Reach, Precedes;
    ReachableSound(d, s);
    if Reach(d, x, w) && w != x {
      LastStep(d, x, w);
    }
  }

  /** The last edge of a path that is not empty. */
  lemma LastStep(d: Graph, x: InstanceID, w: InstanceID)
    requires Reach(d, x, w) && w != x
    ensures exists y :: Reach(d, x, y) && y in d && w in d[y]
  {
    var p :| IsPath(d, x, w, p);
    LastOfPath(d, x, w, p);
  }

  lemma {:induction false} LastOfPath(d: Graph, x: InstanceID, w: InstanceID, p: seq<InstanceID>)
    requires IsPath(d, x, w, p) && p != []
    ensures exists y :: Reach(d, x, y) && y in d && w in d[y]
    decreases |p|
  {
    hide Reach;
    if |p| == 1 {
      ReachRefl(d, x);
    } else {
      LastOfPath(d, p[0], w, p[1..]);
      var y :| Reach(d, p[0], y) && y in d && w in d[y];
      ReachStep(d, x, p[0], y);
    }
  }

  /** A component of several instances with an executed member is recorded,
      exactly, on every member. */
  lemma ComponentsAreRecorded(d: Graph, s: Replica, x: InstanceID, y: InstanceID, z: InstanceID)
    requires Reachable(d, s) && x in s.executed && x != y && Mutual(d, x, y)
    ensures x in s.instances && (z in s.instances[x].scc <==> Mutual(d, x, z))
    ensures y in s.instances && (z in s.instances[y].scc <==> Mutual(d, y, z))
  {
    hide Reachable, AppliedMatches, CommitsAgree, ExecutedClosed, DepsFirst, ComponentsInIdOrder, Mutual;
    ReachableSound(d, s);
    assert RecordedExactly(d, s.instances, x) && RecordedExactly(d, s.instances, y);
  }

  /** No instance is executed twice, the log holds exactly the executed ones, and
      the store has carried out exactly those of them that are not noops. */
  lemma ExecutedExactlyOnce(d: Graph, s: Replica, x: InstanceID)
    requires Reachable(d, s)
    ensures Distinct(s.executed)
    ensures x in s.executed <==> x in s.instances && s.instances[x].status == EXECUTED
    ensures s.applied == Commands(s.instances, s.executed)
  {
    hide Reachable, CommitsAgree, ExecutedClosed, ComponentsRecorded, DepsFirst, ComponentsInIdOrder, Commands;
    ReachableSound(d, s);
  }
}
