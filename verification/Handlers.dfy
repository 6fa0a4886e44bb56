/** How messages and protocol phases change what a replica knows: the instance
    state machine, and each handler as one atomic step. */
module Handlers {
  import opened Options
  import opened Ids
  import opened Instructions
  import opened Instances
  import opened Graphs

  // ---------- instance state machine ----------

  function MaxBallot(a: Ballot, b: Ballot): Ballot {
    if b > a then b else a
  }

  /** uint32 increment: the largest ballot wraps to zero. */
  function Increment(b: Ballot): Ballot {
    (b + 1) % 0x1_0000_0000
  }

  function Bumped(b: Ballot, increment: bool): Ballot {
    if increment then Increment(b) else b
  }

  /** The instance after the update, or None for an invalid status update. */
  function Preaccept(i: Instance, inst: Instance, deps: seq<InstanceID>, increment: bool): Option<Instance> {
    if i.status > PREACCEPTED then None
    else Some(i.(noop := inst.noop, status := PREACCEPTED, deps := deps,
                 ballot := Bumped(MaxBallot(i.ballot, inst.ballot), increment)))
  }

  function Accept(i: Instance, inst: Instance, increment: bool): Option<Instance> {
    if i.status > ACCEPTED then None
    else Some(i.(noop := inst.noop, status := ACCEPTED, deps := inst.deps,
                 ballot := Bumped(MaxBallot(i.ballot, inst.ballot), increment)))
  }

  function Commit(i: Instance, inst: Instance, increment: bool): Option<Instance> {
    if i.status > COMMITTED then None
    else Some(i.(noop := inst.noop, status := COMMITTED, deps := inst.deps,
                 ballot := Bumped(MaxBallot(i.ballot, inst.ballot), increment)))
  }

  /** A copy as it is sent: Copy drops the read-only flag and the component. */
  function Copy(i: Instance): Instance {
    i.(readOnly := false, scc := {})
  }

  // ---------- the instance map ----------

  /** An instance new to the replica is never taken to be executed here, and
      arrives without a recorded component. */
  function Admitted(inst: Instance): Instance {
    inst.(status := if inst.status > COMMITTED then COMMITTED else inst.status, scc := {})
  }

  function GetOrSet(m: InstanceMap, inst: Instance): InstanceMap {
    if inst.id in m then m else m[inst.id := Admitted(inst)]
  }

  function AddMissing(m: InstanceMap, insts: seq<Instance>): InstanceMap {
    if insts == [] then m else GetOrSet(AddMissing(m, insts[..|insts| - 1]), insts[|insts| - 1])
  }

  function Store(m: InstanceMap, id: InstanceID, update: Option<Instance>): InstanceMap {
    if update.Some? then m[id := update.value] else m
  }

  function PreacceptInstance(m: InstanceMap, inst: Instance, deps: seq<InstanceID>, increment: bool): InstanceMap {
    var m1 := GetOrSet(m, inst);
    Store(m1, inst.id, Preaccept(m1[inst.id], inst, deps, increment))
  }

  function AcceptInstance(m: InstanceMap, inst: Instance, increment: bool): InstanceMap {
    var m1 := GetOrSet(m, inst);
    Store(m1, inst.id, Accept(m1[inst.id], inst, increment))
  }

  function CommitInstance(m: InstanceMap, inst: Instance, increment: bool): InstanceMap {
    var m1 := GetOrSet(m, inst);
    Store(m1, inst.id, Commit(m1[inst.id], inst, increment))
  }

  // ---------- message handlers ----------

  /** A known instance turns away a request whose ballot is not higher. */
  predicate Rejects(m: InstanceMap, id: InstanceID, ballot: Ballot) {
    id in m && m[id].ballot >= ballot
  }

  function HandlePreAccept(m: InstanceMap, req: Instance, deps: seq<InstanceID>): InstanceMap {
    if Rejects(m, req.id, req.ballot) then m
    else
      var m1 := PreacceptInstance(m, req, deps, false);
      m1[req.id := m1[req.id].(depMatch := Elements(req.deps) == Elements(m1[req.id].deps))]
  }

  function HandleAccept(m: InstanceMap, req: Instance, missing: seq<Instance>): InstanceMap {
    var m1 := AddMissing(m, missing);
    if Rejects(m1, req.id, req.ballot) then m1 else AcceptInstance(m1, req, false)
  }

  function HandleCommit(m: InstanceMap, req: Instance): InstanceMap {
    CommitInstance(m, req, false)
  }

  function UpdateBallot(m: InstanceMap, id: InstanceID, ballot: Ballot): InstanceMap {
    if id in m then m[id := m[id].(ballot := MaxBallot(m[id].ballot, ballot))] else m
  }

  function HandlePrepare(m: InstanceMap, id: InstanceID, ballot: Ballot): InstanceMap {
    UpdateBallot(m, id, ballot)
  }

  datatype PrepareResponse = PrepareResponse(accepted: bool, instance: Option<Instance>)

  function PrepareReply(m: InstanceMap, id: InstanceID, ballot: Ballot): PrepareResponse {
    if id !in m then PrepareResponse(true, None)
    else PrepareResponse(ballot > m[id].ballot, Some(Copy(HandlePrepare(m, id, ballot)[id])))
  }

  // ---------- steps a leader takes locally ----------

  function IncrementBallot(m: InstanceMap, id: InstanceID): InstanceMap {
    if id in m then m[id := m[id].(ballot := Increment(m[id].ballot))] else m
  }

  /** Merging one responder's dependencies, allowed only while preaccepted. The
      merged list holds the union in any order. */
  predicate IsMerge(i: Instance, deps: seq<InstanceID>, i': Instance) {
    if i.status != PREACCEPTED || Elements(i.deps) == Elements(deps) then i' == i
    else i' == i.(deps := i'.deps) && Elements(i'.deps) == Elements(i.deps) + Elements(deps)
  }

  function SetNoop(m: InstanceMap, id: InstanceID): InstanceMap {
    if id in m && m[id].status <= PREACCEPTED then m[id := m[id].(noop := true)] else m
  }

  /** Everything that can change the instance map, execution aside. */
  datatype Event =
    | PreAcceptRequest(req: Instance, deps: seq<InstanceID>)
    | AcceptRequest(req: Instance, missing: seq<Instance>)
    | CommitRequest(req: Instance)
    | PrepareRequest(id: InstanceID, ballot: Ballot)
    | LocalPreAccept(req: Instance, deps: seq<InstanceID>)
    | LocalAccept(req: Instance, increment: bool)
    | LocalCommit(req: Instance, increment: bool)
    | MissingInstances(missing: seq<Instance>)
    | LocalPrepare(id: InstanceID)
    | BallotSeen(id: InstanceID, ballot: Ballot)
    | Merge(id: InstanceID, deps: seq<InstanceID>, merged: Instance)
    | Noop(id: InstanceID)

  function Next(m: InstanceMap, e: Event): InstanceMap {
    match e
    case PreAcceptRequest(req, deps) => HandlePreAccept(m, req, deps)
    case AcceptRequest(req, missing) => HandleAccept(m, req, missing)
    case CommitRequest(req) => HandleCommit(m, req)
    case PrepareRequest(id, ballot) => HandlePrepare(m, id, ballot)
    case LocalPreAccept(req, deps) => PreacceptInstance(m, req, deps, true)
    case LocalAccept(req, increment) => AcceptInstance(m, req, increment)
    case LocalCommit(req, increment) => CommitInstance(m, req, increment)
    case MissingInstances(missing) => AddMissing(m, missing)
    case LocalPrepare(id) => IncrementBallot(m, id)
    case BallotSeen(id, ballot) => UpdateBallot(m, id, ballot)
    case Merge(id, deps, merged) => if id in m && IsMerge(m[id], deps, merged) then m[id := merged] else m
    case Noop(id) => SetNoop(m, id)
  }

  // ---------- what every step keeps ----------

  /** i' is a later state of i under handlers. */
  predicate Evolves(i: Instance, i': Instance) {
    && i'.id == i.id && i'.command == i.command && i'.scc == i.scc
    && i.status <= i'.status
    && (i'.status >= EXECUTED ==> i.status >= EXECUTED)
    && (i.status >= EXECUTED ==> i'.deps == i.deps && i'.noop == i.noop && i'.status == i.status)
    && (i.status >= COMMITTED ==> i'.status >= COMMITTED)
  }

  predicate IsFresh(i: Instance) {
    i.status <= COMMITTED && i.scc == {}
  }

  /** Known instances stay known and only evolve; new ones are not executed. */
  ghost predicate Frame(m: InstanceMap, m': InstanceMap) {
    && (forall x :: x in m ==> x in m' && Evolves(m[x], m'[x]))
    && (forall x :: x in m' && x !in m ==> IsFresh(m'[x]))
  }

  lemma FrameTrans(m: InstanceMap, m1: InstanceMap, m2: InstanceMap)
    requires Frame(m, m1) && Frame(m1, m2)
    ensures Frame(m, m2)
  {
  }

  lemma UpdateFrame(m: InstanceMap, id: InstanceID, i: Instance)
    requires id in m ==> Evolves(m[id], i)
    requires id !in m ==> IsFresh(i)
    ensures Frame(m, m[id := i])
  {
  }

  lemma {:induction false} AddMissingFrame(m: InstanceMap, insts: seq<Instance>)
    ensures Frame(m, AddMissing(m, insts))
  {
    if insts != [] {
      AddMissingFrame(m, insts[..|insts| - 1]);
    }
  }

  lemma PreacceptFrame(m: InstanceMap, inst: Instance, deps: seq<InstanceID>, increment: bool)
    ensures inst.id in PreacceptInstance(m, inst, deps, increment)
    ensures Frame(m, PreacceptInstance(m, inst, deps, increment))
  {
    hide Frame;
    var m' := PreacceptInstance(m, inst, deps, increment);
    assert m' == m[inst.id := m'[inst.id]];
    UpdateFrame(m, inst.id, m'[inst.id]);
  }

  lemma AcceptFrame(m: InstanceMap, inst: Instance, increment: bool)
    ensures Frame(m, AcceptInstance(m, inst, increment))
  {
    hide Frame;
    var m' := AcceptInstance(m, inst, increment);
    assert m' == m[inst.id := m'[inst.id]];
    UpdateFrame(m, inst.id, m'[inst.id]);
  }

  lemma CommitFrame(m: InstanceMap, inst: Instance, increment: bool)
    ensures Frame(m, CommitInstance(m, inst, increment))
  {
    hide Frame;
    var m' := CommitInstance(m, inst, increment);
    assert m' == m[inst.id := m'[inst.id]];
    UpdateFrame(m, inst.id, m'[inst.id]);
  }

  lemma HandlePreAcceptFrame(m: InstanceMap, req: Instance, deps: seq<InstanceID>)
    ensures Frame(m, HandlePreAccept(m, req, deps))
  {
    hide PreacceptInstance;
    PreacceptFrame(m, req, deps, false);
  }

  /** Every handler and phase: status never goes back, an executed instance keeps
      its dependencies and noop flag, and no instance becomes executed. */
  lemma NextIsFrame(m: InstanceMap, e: Event)
    ensures Frame(m, Next(m, e))
  {
    hide Frame, PreacceptInstance, AcceptInstance, CommitInstance, HandlePreAccept, AddMissing;
    match e
    case PreAcceptRequest(req, deps) => HandlePreAcceptFrame(m, req, deps);
    case AcceptRequest(req, missing) =>
      AddMissingFrame(m, missing);
      AcceptFrame(AddMissing(m, missing), req, false);
      FrameTrans(m, AddMissing(m, missing), AcceptInstance(AddMissing(m, missing), req, false));
    case CommitRequest(req) => CommitFrame(m, req, false);
    case PrepareRequest(id, ballot) => BallotFrame(m, id, ballot);
    case LocalPreAccept(req, deps) => PreacceptFrame(m, req, deps, true);
    case LocalAccept(req, increment) => AcceptFrame(m, req, increment);
    case LocalCommit(req, increment) => CommitFrame(m, req, increment);
    case MissingInstances(missing) => AddMissingFrame(m, missing);
    case LocalPrepare(id) => if id in m { BallotChangeFrame(m, id, Increment(m[id].ballot)); } else { FrameRefl(m); }
    case BallotSeen(id, ballot) => BallotFrame(m, id, ballot);
    case Merge(id, deps, merged) => MergeFrame(m, id, deps, merged);
    case Noop(id) => NoopFrame(m, id);
  }

  lemma FrameRefl(m: InstanceMap)
    ensures Frame(m, m)
  {
  }

  lemma BallotChangeFrame(m: InstanceMap, id: InstanceID, ballot: Ballot)
    requires id in m
    ensures Frame(m, m[id := m[id].(ballot := ballot)])
  {
  }

  lemma BallotFrame(m: InstanceMap, id: InstanceID, ballot: Ballot)
    ensures Frame(m, UpdateBallot(m, id, ballot))
  {
  }

  lemma MergeFrame(m: InstanceMap, id: InstanceID, deps: seq<InstanceID>, merged: Instance)
    ensures Frame(m, Next(m, Merge(id, deps, merged)))
  {
    hide Elements;
  }

  lemma NoopFrame(m: InstanceMap, id: InstanceID)
    ensures Frame(m, SetNoop(m, id))
  {
  }

  // ---------- what a phase decides ----------

  /** The higher of the two ballots, one up if incremented, modulo two to the 32. */
  predicate IsRaised(known: Ballot, sent: Ballot, increment: bool, raised: Ballot) {
    var high: nat := if sent > known then sent else known;
    raised == if !increment then high else if high == TOP_BALLOT then 0 else high + 1
  }

  /** The state in which a phase finds x: as known, or else as sent, but never
      past committed. */
  function Found(m: InstanceMap, inst: Instance): Instance {
    if inst.id in m then m[inst.id]
    else inst.(status := if inst.status > COMMITTED then COMMITTED else inst.status, scc := {})
  }

  /** What a phase makes of i: the new status, dependencies and ballot, the noop
      flag of the request, and everything else as it was. */
  predicate Decided(i: Instance, inst: Instance, status: Status, deps: seq<InstanceID>, increment: bool, i': Instance) {
    && i'.status == status && i'.deps == deps && i'.noop == inst.noop
    && IsRaised(i.ballot, inst.ballot, increment, i'.ballot)
    && i'.id == i.id && i'.leader == i.leader && i'.successors == i.successors && i'.command == i.command
    && i'.depMatch == i.depMatch && i'.readOnly == i.readOnly && i'.scc == i.scc
  }

  lemma PreacceptDecides(m: InstanceMap, inst: Instance, deps: seq<InstanceID>, increment: bool)
    ensures var m', i := PreacceptInstance(m, inst, deps, increment), Found(m, inst);
      && inst.id in m' && m'.Keys == m.Keys + {inst.id} && (forall x :: x in m && x != inst.id ==> m'[x] == m[x])
      && if i.status <= PREACCEPTED then Decided(i, inst, PREACCEPTED, deps, increment, m'[inst.id]) else m'[inst.id] == i
  {
  }

  lemma AcceptDecides(m: InstanceMap, inst: Instance, increment: bool)
    ensures var m', i := AcceptInstance(m, inst, increment), Found(m, inst);
      && inst.id in m' && m'.Keys == m.Keys + {inst.id} && (forall x :: x in m && x != inst.id ==> m'[x] == m[x])
      && if i.status <= ACCEPTED then Decided(i, inst, ACCEPTED, inst.deps, increment, m'[inst.id]) else m'[inst.id] == i
  {
  }

  lemma CommitInstanceDecides(m: InstanceMap, inst: Instance, increment: bool)
    ensures var m', i := CommitInstance(m, inst, increment), Found(m, inst);
      && inst.id in m' && m'.Keys == m.Keys + {inst.id} && (forall x :: x in m && x != inst.id ==> m'[x] == m[x])
      && if i.status <= COMMITTED then Decided(i, inst, COMMITTED, inst.deps, increment, m'[inst.id]) else m'[inst.id] == i
  {
  }

  /** A pre-accept request that is let in: the pre-accept phase, and then whether
      the leader's dependencies are the same. */
  lemma HandlePreAcceptDecides(m: InstanceMap, req: Instance, deps: seq<InstanceID>)
    ensures req.id in m && m[req.id].ballot >= req.ballot ==> HandlePreAccept(m, req, deps) == m
    ensures !(req.id in m && m[req.id].ballot >= req.ballot) ==>
      var m', m1 := HandlePreAccept(m, req, deps), PreacceptInstance(m, req, deps, false);
      && req.id in m1 && m' == m1[req.id := m1[req.id].(depMatch := m'[req.id].depMatch)]
      && (m'[req.id].depMatch <==> forall x :: x in req.deps <==> x in m1[req.id].deps)
  {
    hide Preaccept;
    PreacceptFrame(m, req, deps, false);
    var m1 := PreacceptInstance(m, req, deps, false);
    SameElements(req.deps, m1[req.id].deps);
  }

  lemma SameElements(a: seq<InstanceID>, b: seq<InstanceID>)
    ensures Elements(a) == Elements(b) <==> forall x :: x in a <==> x in b
  {
    assert forall x :: x in a <==> x in Elements(a);
    assert forall x :: x in b <==> x in Elements(b);
  }

  lemma {:induction false} AddMissingHas(m: InstanceMap, insts: seq<Instance>, x: InstanceID)
    ensures x in AddMissing(m, insts) <==> x in m || exists k :: 0 <= k < |insts| && insts[k].id == x
  {
    hide Admitted;
    if insts != [] {
      var n := |insts| - 1;
      AddMissingHas(m, insts[..n], x);
      assert forall k :: 0 <= k < n ==> insts[..n][k] == insts[k];
    }
  }

  /** A missing instance that is new is taken as it was first sent. */
  lemma {:induction false} AddMissingIsFirst(m: InstanceMap, insts: seq<Instance>, k: nat)
    requires k < |insts| && insts[k].id !in m && forall j :: 0 <= j < k ==> insts[j].id != insts[k].id
    ensures insts[k].id in AddMissing(m, insts) && AddMissing(m, insts)[insts[k].id] == Found(map[], insts[k])
  {
    var n := |insts| - 1;
    if k < n {
      assert insts[..n][k] == insts[k];
      AddMissingIsFirst(m, insts[..n], k);
    } else {
      AddMissingHas(m, insts[..n], insts[k].id);
    }
  }

  /** An accept request: its missing instances come first, then the ballot decides
      whether the accept phase takes place. */
  lemma HandleAcceptDecides(m: InstanceMap, req: Instance, missing: seq<Instance>)
    ensures var m1 := AddMissing(m, missing);
      HandleAccept(m, req, missing) == if req.id in m1 && m1[req.id].ballot >= req.ballot then m1 else AcceptInstance(m1, req, false)
  {
  }

  /** A pre-accept that is let in, received or local, leaves the instance
      pre-accepted with the dependencies learned and the noop flag sent. */
  lemma PreacceptEventDecides(m: InstanceMap, e: Event)
    requires e.PreAcceptRequest? || e.LocalPreAccept?
    requires e.PreAcceptRequest? ==> e.req.id !in m || m[e.req.id].ballot < e.req.ballot
    ensures e.req.id in Next(m, e)
    ensures var i, i' := Found(m, e.req), Next(m, e)[e.req.id];
      if i.status <= PREACCEPTED then i'.status == PREACCEPTED && i'.deps == e.deps && i'.noop == e.req.noop
      else i'.status == i.status && i'.deps == i.deps && i'.noop == i.noop
  {
    hide PreacceptInstance, HandlePreAccept;
    PreacceptDecides(m, e.req, e.deps, e.LocalPreAccept?);
    if e.PreAcceptRequest? {
      HandlePreAcceptDecides(m, e.req, e.deps);
    }
  }

  /** An accept that is let in, received or local, leaves the instance accepted with
      the dependencies and the noop flag sent. What came along as missing decides
      neither about an instance that is known nor about one it does not list. */
  lemma AcceptEventDecides(m: InstanceMap, e: Event)
    requires e.LocalAccept? || (e.AcceptRequest? && (e.req.id !in m ==> forall k :: 0 <= k < |e.missing| ==> e.missing[k].id != e.req.id))
    requires e.AcceptRequest? ==> e.req.id !in m || m[e.req.id].ballot < e.req.ballot
    ensures e.req.id in Next(m, e)
    ensures var i, i' := Found(m, e.req), Next(m, e)[e.req.id];
      if i.status <= ACCEPTED then i'.status == ACCEPTED && i'.deps == e.req.deps && i'.noop == e.req.noop else i' == i
  {
    hide AcceptInstance, AddMissing, HandleAccept;
    if e.AcceptRequest? {
      HandleAcceptDecides(m, e.req, e.missing);
      AcceptDecides(AddMissing(m, e.missing), e.req, false);
      AddMissingHas(m, e.missing, e.req.id);
      if e.req.id in m {
        AddMissingKeeps(m, e.missing, e.req.id);
      }
    } else {
      AcceptDecides(m, e.req, e.increment);
    }
  }

  /** A leader that prepares raises its ballot by one. */
  lemma PrepareRaises(m: InstanceMap, x: InstanceID)
    requires x in m
    ensures var m' := Next(m, LocalPrepare(x));
      && m'.Keys == m.Keys && (forall y :: y in m && y != x ==> m'[y] == m[y])
      && m'[x] == m[x].(ballot := m'[x].ballot) && IsRaised(m[x].ballot, 0, true, m'[x].ballot)
  {
  }

  /** Seeing a ballot raises the known one to it and never lowers it. */
  lemma BallotSeenRaises(m: InstanceMap, x: InstanceID, b: Ballot)
    requires x in m
    ensures var m' := UpdateBallot(m, x, b);
      && m'.Keys == m.Keys && (forall y :: y in m && y != x ==> m'[y] == m[y])
      && m'[x] == m[x].(ballot := m'[x].ballot) && IsRaised(m[x].ballot, b, false, m'[x].ballot)
  {
  }

  /** A copy carries everything but the read-only flag and the component. */
  lemma CopyKeeps(i: Instance)
    ensures var c := Copy(i);
      && c.id == i.id && c.leader == i.leader && c.successors == i.successors && c.command == i.command && c.deps == i.deps
      && c.status == i.status && c.ballot == i.ballot && c.noop == i.noop && c.depMatch == i.depMatch
      && !c.readOnly && c.scc == {}
  {
  }

  // ---------- commits are final ----------

  /** x is committed with the dependencies and the noop flag of c. */
  predicate CommittedAs(m: InstanceMap, x: InstanceID, c: Instance) {
    x in m && m[x].status >= COMMITTED && m[x].deps == c.deps && m[x].noop == c.noop
  }

  /** A commit of x carries the dependencies and the noop flag of c. */
  predicate CommitAgrees(e: Event, x: InstanceID, c: Instance) {
    (e.CommitRequest? || e.LocalCommit?) && e.req.id == x ==> e.req.deps == c.deps && e.req.noop == c.noop
  }

  /** e commits c, as a message or as the leader's own step. */
  predicate Commits(e: Event, c: Instance) {
    (e.CommitRequest? || e.LocalCommit?) && e.req == c
  }

  lemma CommitDecides(m: InstanceMap, e: Event, c: Instance)
    requires !IsExecuted(m, c.id) && Commits(e, c)
    ensures CommittedAs(Next(m, e), c.id, c)
  {
  }

  /** Whatever arrives after a commit, in whatever order, does not undo it. */
  lemma CommittedStays(m: InstanceMap, e: Event, x: InstanceID, c: Instance)
    requires CommittedAs(m, x, c) && CommitAgrees(e, x, c)
    ensures CommittedAs(Next(m, e), x, c)
  {
    hide Elements, AddMissing, MaxBallot, Bumped;
    match e
    case AcceptRequest(req, missing) => AddMissingKeeps(m, missing, x);
    case MissingInstances(missing) => AddMissingKeeps(m, missing, x);
    case _ =>
  }

  // ---------- ballots ----------

  const TOP_BALLOT: Ballot := 0xFFFF_FFFF

  /** The value a step increments to get x's new ballot, if it increments it. */
  function Incremented(m: InstanceMap, e: Event, x: InstanceID): Option<Ballot>
    requires x in m
  {
    match e
    case LocalPreAccept(req, _) =>
      if req.id == x && m[x].status <= PREACCEPTED then Some(MaxBallot(m[x].ballot, req.ballot)) else None
    case LocalAccept(req, increment) =>
      if increment && req.id == x && m[x].status <= ACCEPTED then Some(MaxBallot(m[x].ballot, req.ballot)) else None
    case LocalCommit(req, increment) =>
      if increment && req.id == x && m[x].status <= COMMITTED then Some(MaxBallot(m[x].ballot, req.ballot)) else None
    case LocalPrepare(id) => if id == x then Some(m[x].ballot) else None
    case _ => None
  }

  /** The step increments x's ballot past the largest uint32. */
  predicate Wraps(m: InstanceMap, e: Event, x: InstanceID) {
    x in m && m[x].ballot > 0 && Incremented(m, e, x) == Some(TOP_BALLOT)
  }

  lemma {:induction false} AddMissingKeeps(m: InstanceMap, insts: seq<Instance>, x: InstanceID)
    requires x in m
    ensures x in AddMissing(m, insts) && AddMissing(m, insts)[x] == m[x]
  {
    if insts != [] {
      AddMissingKeeps(m, insts[..|insts| - 1], x);
    }
  }

  /** The ballot a phase leaves behind: raised to the request's and bumped if the
      phase takes place. */
  lemma PhaseBallot(m: InstanceMap, inst: Instance, deps: seq<InstanceID>, increment: bool, x: InstanceID)
    requires x in m
    ensures var raised := Bumped(MaxBallot(m[x].ballot, inst.ballot), increment);
      && x in PreacceptInstance(m, inst, deps, increment)
      && PreacceptInstance(m, inst, deps, increment)[x].ballot ==
           (if inst.id == x && m[x].status <= PREACCEPTED then raised else m[x].ballot)
      && x in AcceptInstance(m, inst, increment)
      && AcceptInstance(m, inst, increment)[x].ballot ==
           (if inst.id == x && m[x].status <= ACCEPTED then raised else m[x].ballot)
      && x in CommitInstance(m, inst, increment)
      && CommitInstance(m, inst, increment)[x].ballot ==
           (if inst.id == x && m[x].status <= COMMITTED then raised else m[x].ballot)
  {
    hide Bumped, MaxBallot;
  }

  lemma BallotFacts(a: Ballot, b: Ballot, increment: bool)
    ensures MaxBallot(a, b) >= a
    ensures Bumped(MaxBallot(a, b), increment) < a <==> increment && a > 0 && MaxBallot(a, b) == TOP_BALLOT
    ensures Increment(a) < a <==> a > 0 && a == TOP_BALLOT
  {
  }

  /** A ballot falls exactly when a step wraps it. */
  lemma BallotFallsIffWraps(m: InstanceMap, e: Event, x: InstanceID)
    requires x in m
    ensures x in Next(m, e)
    ensures Next(m, e)[x].ballot < m[x].ballot <==> Wraps(m, e, x)
  {
    hide Elements, AddMissing, PreacceptInstance, AcceptInstance, CommitInstance, Bumped, MaxBallot, Increment;
    match e
    case PreAcceptRequest(req, deps) =>
      PhaseBallot(m, req, deps, false, x);
      BallotFacts(m[x].ballot, req.ballot, false);
      PreacceptFrame(m, req, deps, false);
    case AcceptRequest(req, missing) =>
      AddMissingKeeps(m, missing, x);
      PhaseBallot(AddMissing(m, missing), req, [], false, x);
      BallotFacts(m[x].ballot, req.ballot, false);
    case CommitRequest(req) =>
      PhaseBallot(m, req, [], false, x);
      BallotFacts(m[x].ballot, req.ballot, false);
    case PrepareRequest(id, ballot) => BallotFacts(m[x].ballot, ballot, false);
    case LocalPreAccept(req, deps) =>
      PhaseBallot(m, req, deps, true, x);
      BallotFacts(m[x].ballot, req.ballot, true);
    case LocalAccept(req, increment) =>
      PhaseBallot(m, req, [], increment, x);
      BallotFacts(m[x].ballot, req.ballot, increment);
    case LocalCommit(req, increment) =>
      PhaseBallot(m, req, [], increment, x);
      BallotFacts(m[x].ballot, req.ballot, increment);
    case MissingInstances(missing) => AddMissingKeeps(m, missing, x);
    case LocalPrepare(id) => BallotFacts(m[x].ballot, 0, false);
    case BallotSeen(id, ballot) => BallotFacts(m[x].ballot, ballot, false);
    case _ =>
  }

  lemma WrapsToZero(m: InstanceMap, e: Event, x: InstanceID)
    requires Wraps(m, e, x)
    ensures x in Next(m, e) && Next(m, e)[x].ballot == 0
  {
    hide PreacceptInstance, AcceptInstance, CommitInstance;
    match e
    case LocalPreAccept(req, deps) => PhaseBallot(m, req, deps, true, x);
    case LocalAccept(req, increment) => PhaseBallot(m, req, [], increment, x);
    case LocalCommit(req, increment) => PhaseBallot(m, req, [], increment, x);
    case _ =>
  }

  /** A leader that holds the top ballot prepares again with ballot zero. */
  lemma TopBallotFalls(i: Instance)
    requires i.ballot == TOP_BALLOT
    ensures Next(map[i.id := i], LocalPrepare(i.id)) == map[i.id := i.(ballot := 0)]
  {
    var m := map[i.id := i];
    assert Next(m, LocalPrepare(i.id)) == m[i.id := i.(ballot := 0)];
  }

  /** A pre-accept or accept request for x with a ballot of at most b. */
  predicate IsLowRequest(e: Event, x: InstanceID, b: Ballot) {
    (e.PreAcceptRequest? || e.AcceptRequest?) && e.req.id == x && e.req.ballot <= b
  }

  predicate Untouched(m: InstanceMap, m': InstanceMap, x: InstanceID) {
    if x in m then x in m' && m'[x] == m[x] else x !in m'
  }

  /** Requests with a ballot of at most b do not touch x. */
  ghost predicate Binds(m: InstanceMap, x: InstanceID, b: Ballot) {
    forall e :: IsLowRequest(e, x, b) ==> Untouched(m, Next(m, e), x)
  }

  const NO_COMMAND: Instruction := Instruction([], [], [], [1] + seq(14, _ => 0))

  /** Otherwise one gets through: a pre-accept changes at least the match flag. */
  lemma BindsIffHigh(m: InstanceMap, x: InstanceID, b: Ballot)
    requires x in m
    ensures Binds(m, x, b) <==> m[x].ballot >= b
  {
    if m[x].ballot >= b {
      forall e | IsLowRequest(e, x, b) ensures Untouched(m, Next(m, e), x) {
        LowBallotChangesNothing(m, e, x);
      }
    } else {
      var req := Instance(x, x, [], NO_COMMAND, [], 0, b, false, false, false, {});
      var e := AcceptRequest(req, []);
      assert IsLowRequest(e, x, b);
      if m[x].status > ACCEPTED {
        LateRequestTouches(m, x, b);
      }
    }
  }

  lemma LateRequestTouches(m: InstanceMap, x: InstanceID, b: Ballot)
    requires x in m && m[x].ballot < b && m[x].status > ACCEPTED
    ensures !Binds(m, x, b)
  {
    var deps := if m[x].depMatch then (if m[x].deps == [] then [x] else []) else m[x].deps;
    var req := Instance(x, x, [], NO_COMMAND, deps, 0, b, false, false, false, {});
    var e := PreAcceptRequest(req, []);
    assert x in Elements([x]);
    assert m[x].deps != [] ==> m[x].deps[0] in Elements(m[x].deps);
    assert Next(m, e)[x].depMatch != m[x].depMatch;
    assert IsLowRequest(e, x, b);
  }

  /** A replica accepts a prepare for an instance it does not know, records
      nothing, and goes on to accept a request with a lower ballot. */
  lemma UnknownPromiseIsBroken(req: Instance, b: Ballot)
    requires req.ballot < b && req.status <= ACCEPTED
    ensures PrepareReply(map[], req.id, b).accepted && Next(map[], PrepareRequest(req.id, b)) == map[]
    ensures !Rejects(map[], req.id, req.ballot)
    ensures var m' := Next(map[], AcceptRequest(req, []));
      req.id in m' && m'[req.id].status == ACCEPTED && m'[req.id].deps == req.deps
  {
  }

  /** An accepted prepare binds the replica if and only if it knows the instance. */
  lemma PromiseBindsIffKnown(m: InstanceMap, x: InstanceID, b: Ballot)
    requires PrepareReply(m, x, b).accepted
    ensures Binds(Next(m, PrepareRequest(x, b)), x, b) <==> x in m
  {
    hide PreacceptInstance, AcceptInstance, AddMissing;
    var m1 := Next(m, PrepareRequest(x, b));
    if x in m {
      forall e | IsLowRequest(e, x, b) ensures Untouched(m1, Next(m1, e), x) {
        LowBallotChangesNothing(m1, e, x);
      }
    } else {
      var req := Instance(x, x, [], NO_COMMAND, [], 0, 0, false, false, false, {});
      PreacceptFrame(m1, req, [], false);
      assert IsLowRequest(PreAcceptRequest(req, []), x, b);
    }
  }

  /** A known instance is untouched by a request that is no higher than its ballot. */
  lemma LowBallotChangesNothing(m: InstanceMap, e: Event, x: InstanceID)
    requires x in m && (e.PreAcceptRequest? || e.AcceptRequest?)
    requires e.req.id == x && e.req.ballot <= m[x].ballot
    ensures x in Next(m, e) && Next(m, e)[x] == m[x]
  {
    if e.AcceptRequest? {
      AddMissingKeeps(m, e.missing, x);
    }
  }
}
