/** Whole runs of the dependency manager: when an id may be forgotten, and why
    forgetting it loses no dependency. */
module DependencyRuns {
  import opened Ids
  import opened DependencyTrie

  /** The tree after a sequence of calls on an empty one. */
  function After(calls: seq<Call>): Forest {
    if calls == [] then map[] else Perform(After(calls[..|calls| - 1]), calls[|calls| - 1])
  }

  function SetsAfter(calls: seq<Call>, p: Path): Sets
    requires p != []
  {
    SetsAt(After(calls), p)
  }

  lemma StepAt(calls: seq<Call>, c: Call, p: Path)
    requires p != []
    ensures SetsAfter(calls + [c], p) == if p == c.keys then Effect(SetsAfter(calls, p), c) else SetsAfter(calls, p)
  {
    assert (calls + [c])[..|calls|] == calls;
    PerformAt(After(calls), c, p);
  }

  lemma StartAt(p: Path)
    requires p != []
    ensures SetsAfter([], p) == NO_SETS
  {
    NothingBelowNew(p[1..]);
  }

  // ---------- what has been reported ----------

  ghost predicate WasExecuted(calls: seq<Call>, p: Path, x: InstanceID) {
    exists j :: 0 <= j < |calls| && calls[j].Executed? && calls[j].keys == p && calls[j].id == x
  }

  /** Some other instance that lists x was reported accepted or committed. */
  ghost predicate WasAcknowledged(calls: seq<Call>, p: Path, x: InstanceID) {
    exists j :: 0 <= j < |calls| && calls[j].Acknowledged? && calls[j].keys == p && calls[j].id != x && x in calls[j].deps
  }

  /** At a single key the marks are justified by reports; below one, nothing is
      ever marked executed. */
  ghost predicate Justified(calls: seq<Call>, p: Path)
    requires p != []
  {
    var s := SetsAfter(calls, p);
    if |p| == 1 then
      && (forall x :: x in s.executed ==> WasExecuted(calls, p, x))
      && (forall x :: x in s.acknowledged ==> WasAcknowledged(calls, p, x))
    else s.executed == {}
  }

  lemma ReportsGrow(calls: seq<Call>, c: Call, p: Path, x: InstanceID)
    ensures WasExecuted(calls, p, x) ==> WasExecuted(calls + [c], p, x)
    ensures WasAcknowledged(calls, p, x) ==> WasAcknowledged(calls + [c], p, x)
    ensures c.Executed? && c.keys == p && c.id == x ==> WasExecuted(calls + [c], p, x)
    ensures c.Acknowledged? && c.keys == p && c.id != x && x in c.deps ==> WasAcknowledged(calls + [c], p, x)
  {
    var calls' := calls + [c];
    assert calls'[|calls|] == c;
    if WasExecuted(calls, p, x) {
      var j :| 0 <= j < |calls| && calls[j].Executed? && calls[j].keys == p && calls[j].id == x;
      assert calls'[j] == calls[j];
    }
    if WasAcknowledged(calls, p, x) {
      var j :| 0 <= j < |calls| && calls[j].Acknowledged? && calls[j].keys == p && calls[j].id != x && x in calls[j].deps;
      assert calls'[j] == calls[j];
    }
  }

  lemma JustifiedStep(calls: seq<Call>, c: Call, p: Path)
    requires p != [] && Justified(calls, p)
    ensures Justified(calls + [c], p)
  {
    hide WasExecuted, WasAcknowledged, SetsAfter;
    StepAt(calls, c, p);
    forall x
      ensures WasExecuted(calls, p, x) ==> WasExecuted(calls + [c], p, x)
      ensures WasAcknowledged(calls, p, x) ==> WasAcknowledged(calls + [c], p, x)
      ensures c.Executed? && c.keys == p && c.id == x ==> WasExecuted(calls + [c], p, x)
      ensures c.Acknowledged? && c.keys == p && c.id != x && x in c.deps ==> WasAcknowledged(calls + [c], p, x)
    {
      ReportsGrow(calls, c, p, x);
    }
  }

  lemma {:induction false} AlwaysJustified(calls: seq<Call>, p: Path)
    requires p != []
    ensures Justified(calls, p)
  {
    if calls == [] {
      StartAt(p);
    } else {
      var n := |calls| - 1;
      AlwaysJustified(calls[..n], p);
      JustifiedStep(calls[..n], calls[n], p);
      assert calls[..n] + [calls[n]] == calls;
    }
  }

  /** An id leaves the reads or writes of a node only when some instance takes
      its dependencies there, after the id was reported executed and another
      instance listing it was reported accepted or committed; below a single
      key it never leaves. */
  lemma SafeRemoval(calls: seq<Call>, c: Call, p: Path, x: InstanceID)
    requires p != []
    requires (x in SetsAfter(calls, p).writeIds && x !in SetsAfter(calls + [c], p).writeIds)
          || (x in SetsAfter(calls, p).readIds && x !in SetsAfter(calls + [c], p).readIds)
    ensures |p| == 1 && c.GetAndSetDeps? && c.keys == p
    ensures WasExecuted(calls, p, x) && WasAcknowledged(calls, p, x)
  {
    hide SetsAfter, WasExecuted, WasAcknowledged;
    StepAt(calls, c, p);
    AlwaysJustified(calls, p);
  }

  // ---------- coverage ----------

  predicate Registers(c: Call, p: Path, x: InstanceID) {
    (c.GetAndSetDeps? || c.Added?) && c.keys == p && c.id == x
  }

  ghost predicate WasRegistered(calls: seq<Call>, p: Path, x: InstanceID) {
    exists j :: 0 <= j < |calls| && Registers(calls[j], p, x)
  }

  /** At p nothing is registered after it was executed. */
  ghost predicate NoneLate(calls: seq<Call>, p: Path) {
    forall i, j :: 0 <= i < j < |calls| && calls[i].Executed? && calls[i].keys == p ==> !Registers(calls[j], p, calls[i].id)
  }

  /** At p there are only writes, and none is registered after it was executed. */
  ghost predicate Orderly(calls: seq<Call>, p: Path) {
    && (forall j :: 0 <= j < |calls| && calls[j].keys == p && (calls[j].GetAndSetDeps? || calls[j].Added?) ==> !calls[j].readOnly)
    && NoneLate(calls, p)
  }

  /** x took y as a dependency in one of these calls. */
  ghost predicate Learned(calls: seq<Call>, p: Path, x: InstanceID, y: InstanceID) {
    exists j :: 0 <= j < |calls| && calls[j].GetAndSetDeps? && calls[j].keys == p && calls[j].id == x
      && y in Returned(After(calls[..j]), calls[j])
  }

  ghost predicate IsChain(calls: seq<Call>, p: Path, x: InstanceID, y: InstanceID, via: seq<InstanceID>)
    decreases |via|
  {
    if via == [] then x == y else Learned(calls, p, x, via[0]) && IsChain(calls, p, via[0], y, via[1..])
  }

  /** y is among the dependencies of x, directly or through others. */
  ghost predicate DependsOn(calls: seq<Call>, p: Path, x: InstanceID, y: InstanceID) {
    exists via :: IsChain(calls, p, x, y, via)
  }

  ghost predicate Covered(calls: seq<Call>, p: Path, x: InstanceID)
    requires p != []
  {
    exists w :: w in SetsAfter(calls, p).writeIds && DependsOn(calls, p, w, x)
  }

  lemma LearnedGrows(calls: seq<Call>, c: Call, p: Path, x: InstanceID, y: InstanceID)
    requires Learned(calls, p, x, y)
    ensures Learned(calls + [c], p, x, y)
  {
    var j :| 0 <= j < |calls| && calls[j].GetAndSetDeps? && calls[j].keys == p && calls[j].id == x
      && y in Returned(After(calls[..j]), calls[j]);
    var calls' := calls + [c];
    assert calls'[j] == calls[j] && calls'[..j] == calls[..j];
  }

  lemma {:induction false} ChainGrows(calls: seq<Call>, c: Call, p: Path, x: InstanceID, y: InstanceID, via: seq<InstanceID>)
    requires IsChain(calls, p, x, y, via)
    ensures IsChain(calls + [c], p, x, y, via)
    decreases |via|
  {
    hide Learned;
    if via != [] {
      LearnedGrows(calls, c, p, x, via[0]);
      ChainGrows(calls, c, p, via[0], y, via[1..]);
    }
  }

  lemma DependsOnGrows(calls: seq<Call>, c: Call, p: Path, x: InstanceID, y: InstanceID)
    requires DependsOn(calls, p, x, y)
    ensures DependsOn(calls + [c], p, x, y)
  {
    var via :| IsChain(calls, p, x, y, via);
    ChainGrows(calls, c, p, x, y, via);
  }

  lemma DependsOnSelf(calls: seq<Call>, p: Path, x: InstanceID)
    ensures DependsOn(calls, p, x, x)
  {
    assert IsChain(calls, p, x, x, []);
  }

  lemma DependsOnStep(calls: seq<Call>, p: Path, x: InstanceID, y: InstanceID, z: InstanceID)
    requires Learned(calls, p, x, y) && DependsOn(calls, p, y, z)
    ensures DependsOn(calls, p, x, z)
  {
    hide Learned;
    var via :| IsChain(calls, p, y, z, via);
    assert ([y] + via)[1..] == via;
    assert IsChain(calls, p, x, z, [y] + via);
  }

  /** A new write takes every write still registered as a dependency. */
  lemma NewWriteLearns(calls: seq<Call>, c: Call, p: Path, w: InstanceID)
    requires p != [] && c.GetAndSetDeps? && c.keys == p && !c.readOnly
    requires w in SetsAfter(calls, p).writeIds && w != c.id
    ensures w in Returned(After(calls), c) && Learned(calls + [c], p, c.id, w)
  {
    var calls' := calls + [c];
    assert calls'[|calls|] == c && calls'[..|calls|] == calls;
    assert Interferes(After(calls), c, w, p);
    ReturnedIsExact(After(calls), c, w);
  }

  lemma NewWriteStays(calls: seq<Call>, c: Call, p: Path)
    requires |p| == 1 && c.GetAndSetDeps? && c.keys == p && Orderly(calls + [c], p)
    ensures c.id in SetsAfter(calls + [c], p).writeIds
  {
    hide SetsAfter;
    StepAt(calls, c, p);
    AlwaysJustified(calls, p);
    var calls' := calls + [c];
    assert Registers(calls'[|calls|], p, c.id);
    forall j | 0 <= j < |calls| && calls[j].Executed? && calls[j].keys == p ensures calls[j].id != c.id {
      assert calls'[j] == calls[j];
    }
    assert !WasExecuted(calls, p, c.id);
  }

  /** Whatever is among the writes was registered. */
  lemma {:induction false} WritesWereRegistered(calls: seq<Call>, p: Path, x: InstanceID)
    requires p != [] && x in SetsAfter(calls, p).writeIds
    ensures WasRegistered(calls, p, x)
  {
    hide SetsAfter;
    StartAt(p);
    var n := |calls| - 1;
    assert n >= 0;
    assert calls[..n] + [calls[n]] == calls;
    StepAt(calls[..n], calls[n], p);
    if x in SetsAfter(calls[..n], p).writeIds {
      WritesWereRegistered(calls[..n], p, x);
      var j :| 0 <= j < n && Registers(calls[..n][j], p, x);
      assert Registers(calls[j], p, x);
    } else {
      assert Registers(calls[n], p, x);
    }
  }

  lemma OrderlyPrefix(calls: seq<Call>, c: Call, p: Path)
    requires Orderly(calls + [c], p)
    ensures Orderly(calls, p)
    ensures c.keys == p && (c.GetAndSetDeps? || c.Added?) ==> !c.readOnly
  {
    var calls' := calls + [c];
    assert calls'[|calls|] == c;
    assert forall j :: 0 <= j < |calls| ==> calls'[j] == calls[j];
  }

  lemma RegisteredBefore(calls: seq<Call>, c: Call, p: Path, x: InstanceID)
    requires WasRegistered(calls + [c], p, x)
    ensures WasRegistered(calls, p, x) || Registers(c, p, x)
  {
    var j :| 0 <= j < |calls + [c]| && Registers((calls + [c])[j], p, x);
    if j < |calls| {
      assert Registers(calls[j], p, x);
    }
  }

  /** What was covered before a new write is among its dependencies afterwards. */
  lemma NewWriteDependsOn(calls: seq<Call>, c: Call, p: Path, x: InstanceID)
    requires p != [] && c.GetAndSetDeps? && c.keys == p && !c.readOnly && Covered(calls, p, x)
    ensures DependsOn(calls + [c], p, c.id, x)
  {
    hide SetsAfter, DependsOn, Learned;
    var w :| w in SetsAfter(calls, p).writeIds && DependsOn(calls, p, w, x);
    DependsOnGrows(calls, c, p, w, x);
    if w != c.id {
      NewWriteLearns(calls, c, p, w);
      DependsOnStep(calls + [c], p, c.id, w, x);
    }
  }

  lemma CoveredStep(calls: seq<Call>, c: Call, p: Path, x: InstanceID)
    requires |p| == 1 && Orderly(calls + [c], p)
    requires Covered(calls, p, x) || Registers(c, p, x)
    ensures Covered(calls + [c], p, x)
  {
    hide SetsAfter, DependsOn, Orderly;
    OrderlyPrefix(calls, c, p);
    StepAt(calls, c, p);
    DependsOnSelf(calls + [c], p, x);
    if c.GetAndSetDeps? && c.keys == p {
      NewWriteStays(calls, c, p);
      if !Registers(c, p, x) {
        NewWriteDependsOn(calls, c, p, x);
      }
    } else if Registers(c, p, x) {
      assert x in SetsAfter(calls + [c], p).writeIds;
    } else {
      var w :| w in SetsAfter(calls, p).writeIds && DependsOn(calls, p, w, x);
      DependsOnGrows(calls, c, p, w, x);
      assert w in SetsAfter(calls + [c], p).writeIds;
    }
  }

  /** At a single key, in a run of writes none of which is registered after it
      was executed, every write ever registered is still registered or among
      the dependencies of one that is. */
  lemma {:induction false} Coverage(calls: seq<Call>, p: Path, x: InstanceID)
    requires |p| == 1 && Orderly(calls, p) && WasRegistered(calls, p, x)
    ensures Covered(calls, p, x)
  {
    hide Covered, Orderly, WasRegistered;
    var n := |calls| - 1;
    assert n >= 0 by { NothingRegisteredYet(calls, p, x); }
    assert calls[..n] + [calls[n]] == calls;
    OrderlyPrefix(calls[..n], calls[n], p);
    RegisteredBefore(calls[..n], calls[n], p, x);
    if !Registers(calls[n], p, x) {
      Coverage(calls[..n], p, x);
    }
    CoveredStep(calls[..n], calls[n], p, x);
  }

  lemma NothingRegisteredYet(calls: seq<Call>, p: Path, x: InstanceID)
    requires WasRegistered(calls, p, x)
    ensures calls != []
  {
  }

  /** So each new write depends, directly or not, on every earlier one. */
  lemma NewWriteReachesAll(calls: seq<Call>, c: Call, p: Path, x: InstanceID)
    requires |p| == 1 && Orderly(calls + [c], p) && WasRegistered(calls, p, x)
    requires c.GetAndSetDeps? && c.keys == p
    ensures DependsOn(calls + [c], p, c.id, x)
  {
    hide Covered, Orderly, WasRegistered, DependsOn;
    OrderlyPrefix(calls, c, p);
    Coverage(calls, p, x);
    NewWriteDependsOn(calls, c, p, x);
  }

  /** Why late registration has to be excluded: a write registered again after
      it was executed and acknowledged is dropped on the spot. */
  lemma LateRegistrationIsLost(p: Path, a: InstanceID, b: InstanceID)
    requires |p| == 1 && a != b
    ensures var calls := [GetAndSetDeps(p, a, false), Executed(p, a, {}), Acknowledged(p, b, {a}), GetAndSetDeps(p, a, false)];
      WasRegistered(calls, p, a) && !Covered(calls, p, a)
  {
    hide SetsAfter;
    var c0, c1, c2, c3 := GetAndSetDeps(p, a, false), Executed(p, a, {}), Acknowledged(p, b, {a}), GetAndSetDeps(p, a, false);
    StartAt(p);
    StepAt([], c0, p);
    StepAt([c0], c1, p);
    StepAt([c0, c1], c2, p);
    StepAt([c0, c1, c2], c3, p);
    assert [] + [c0] == [c0] && [c0] + [c1] == [c0, c1] && [c0, c1] + [c2] == [c0, c1, c2];
    assert [c0, c1, c2] + [c3] == [c0, c1, c2, c3];
    assert Registers([c0, c1, c2, c3][0], p, a);
  }

  // ---------- exactly what is kept ----------

  ghost predicate WasRegisteredAs(calls: seq<Call>, p: Path, x: InstanceID, readOnly: bool) {
    exists j :: 0 <= j < |calls| && Registers(calls[j], p, x) && calls[j].readOnly == readOnly
  }

  /** x has been reported executed, and some other instance that lists it accepted or committed. */
  ghost predicate IsDone(calls: seq<Call>, p: Path, x: InstanceID) {
    WasExecuted(calls, p, x) && WasAcknowledged(calls, p, x)
  }

  /** The ids of one kind that a node holds, against what was registered. */
  ghost predicate HoldsExactly(calls: seq<Call>, p: Path, ids: IdSet, readOnly: bool) {
    && (forall x :: x in ids ==> WasRegisteredAs(calls, p, x, readOnly))
    && (forall x :: WasRegisteredAs(calls, p, x, readOnly) ==> x in ids || IsDone(calls, p, x))
  }

  /** Of what a node holds, the marks say exactly what was reported; and an
      acknowledgement of what is not executed is never forgotten. */
  ghost predicate MarksExactly(calls: seq<Call>, p: Path, s: Sets) {
    && (forall x :: x in s.executed ==> WasExecuted(calls, p, x))
    && (forall x :: x in s.acknowledged ==> WasAcknowledged(calls, p, x))
    && (forall x :: WasAcknowledged(calls, p, x) && !WasExecuted(calls, p, x) ==> x in s.acknowledged)
    && (forall x :: x in s.writeIds + s.readIds && WasExecuted(calls, p, x) ==> x in s.executed)
    && (forall x :: x in s.writeIds + s.readIds && WasAcknowledged(calls, p, x) ==> x in s.acknowledged)
  }

  /** How the reports change with one more call. */
  lemma OneMoreReport(calls: seq<Call>, c: Call, p: Path, x: InstanceID, readOnly: bool)
    ensures WasExecuted(calls + [c], p, x) <==> WasExecuted(calls, p, x) || (c.Executed? && c.keys == p && c.id == x)
    ensures WasAcknowledged(calls + [c], p, x) <==>
      WasAcknowledged(calls, p, x) || (c.Acknowledged? && c.keys == p && c.id != x && x in c.deps)
    ensures WasRegisteredAs(calls + [c], p, x, readOnly) <==>
      WasRegisteredAs(calls, p, x, readOnly) || (Registers(c, p, x) && c.readOnly == readOnly)
  {
    var all := calls + [c];
    assert all[|calls|] == c;
    assert forall j :: 0 <= j < |calls| ==> all[j] == calls[j];
    ReportsGrow(calls, c, p, x);
    if WasRegisteredAs(calls, p, x, readOnly) {
      var j :| 0 <= j < |calls| && Registers(calls[j], p, x) && calls[j].readOnly == readOnly;
      assert Registers(all[j], p, x);
    }
  }

  lemma NoneLatePrefix(calls: seq<Call>, c: Call, p: Path)
    requires NoneLate(calls + [c], p)
    ensures NoneLate(calls, p) && ((c.GetAndSetDeps? || c.Added?) && c.keys == p ==> !WasExecuted(calls, p, c.id))
  {
    var all := calls + [c];
    assert all[|calls|] == c;
    assert forall j :: 0 <= j < |calls| ==> all[j] == calls[j];
  }

  ghost predicate Exact(calls: seq<Call>, p: Path, s: Sets) {
    MarksExactly(calls, p, s) && HoldsExactly(calls, p, s.writeIds, false) && HoldsExactly(calls, p, s.readIds, true)
  }

  lemma ExactStep(calls: seq<Call>, c: Call, p: Path, s: Sets)
    requires |p| == 1 && Exact(calls, p, s) && NoneLate(calls + [c], p)
    ensures Exact(calls + [c], p, if p == c.keys then Effect(s, c) else s)
  {
    hide WasExecuted, WasAcknowledged, WasRegisteredAs, NoneLate;
    NoneLatePrefix(calls, c, p);
    var calls' := calls + [c];
    forall x
      ensures WasExecuted(calls', p, x) <==> WasExecuted(calls, p, x) || (c.Executed? && c.keys == p && c.id == x)
      ensures WasAcknowledged(calls', p, x) <==>
        WasAcknowledged(calls, p, x) || (c.Acknowledged? && c.keys == p && c.id != x && x in c.deps)
      ensures WasRegisteredAs(calls', p, x, true) <==> WasRegisteredAs(calls, p, x, true) || (Registers(c, p, x) && c.readOnly)
      ensures WasRegisteredAs(calls', p, x, false) <==> WasRegisteredAs(calls, p, x, false) || (Registers(c, p, x) && !c.readOnly)
    {
      OneMoreReport(calls, c, p, x, true);
      OneMoreReport(calls, c, p, x, false);
    }
    assert MarksExactly(calls', p, if p == c.keys then Effect(s, c) else s);
    assert HoldsExactly(calls', p, (if p == c.keys then Effect(s, c) else s).writeIds, false);
  }

  lemma {:induction false} AlwaysExact(calls: seq<Call>, p: Path)
    requires |p| == 1 && NoneLate(calls, p)
    ensures Exact(calls, p, SetsAfter(calls, p))
  {
    hide SetsAfter, Exact;
    if calls == [] {
      StartAt(p);
      NothingIsExact(p);
    } else {
      var n := |calls| - 1;
      assert calls[..n] + [calls[n]] == calls;
      NoneLatePrefix(calls[..n], calls[n], p);
      AlwaysExact(calls[..n], p);
      StepAt(calls[..n], calls[n], p);
      ExactStep(calls[..n], calls[n], p, SetsAfter(calls[..n], p));
    }
  }

  lemma NothingIsExact(p: Path)
    ensures Exact([], p, NO_SETS)
  {
  }

  /** At a single key, in every run that registers nothing late: right after a new
      instance has taken its dependencies, the node holds exactly what was registered
      and is not both executed and acknowledged, reads among reads and writes among
      writes. */
  lemma KeptExactly(calls: seq<Call>, c: Call, p: Path, x: InstanceID)
    requires |p| == 1 && NoneLate(calls + [c], p) && c.GetAndSetDeps? && c.keys == p
    ensures x in SetsAfter(calls + [c], p).writeIds <==>
      WasRegisteredAs(calls + [c], p, x, false) && !(WasExecuted(calls, p, x) && WasAcknowledged(calls, p, x))
    ensures x in SetsAfter(calls + [c], p).readIds <==>
      WasRegisteredAs(calls + [c], p, x, true) && !(WasExecuted(calls, p, x) && WasAcknowledged(calls, p, x))
  {
    hide SetsAfter, NoneLate, WasExecuted, WasAcknowledged, WasRegisteredAs;
    NoneLatePrefix(calls, c, p);
    AlwaysExact(calls, p);
    StepAt(calls, c, p);
    OneMoreReport(calls, c, p, x, false);
    OneMoreReport(calls, c, p, x, true);
  }

  /** Below a root key nothing is ever dropped, and only taking dependencies
      registers: exactly the instances that did are held. */
  lemma {:induction false} NestedKeepsAll(calls: seq<Call>, p: Path, x: InstanceID)
    requires |p| > 1
    ensures x in SetsAfter(calls, p).writeIds <==>
      exists j :: 0 <= j < |calls| && calls[j].GetAndSetDeps? && calls[j].keys == p && calls[j].id == x && !calls[j].readOnly
    ensures x in SetsAfter(calls, p).readIds <==>
      exists j :: 0 <= j < |calls| && calls[j].GetAndSetDeps? && calls[j].keys == p && calls[j].id == x && calls[j].readOnly
  {
    hide SetsAfter;
    if calls == [] {
      StartAt(p);
    } else {
      var n := |calls| - 1;
      assert calls[..n] + [calls[n]] == calls;
      NestedKeepsAll(calls[..n], p, x);
      AlwaysJustified(calls[..n], p);
      StepAt(calls[..n], calls[n], p);
      assert forall j :: 0 <= j < n ==> calls[..n][j] == calls[j];
    }
  }
}
