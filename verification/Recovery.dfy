/** Explicit prepare: what a recovering leader concludes from the replies of a
    quorum, and what quorums guarantee. */
module Recovery {
  import opened Options
  import opened Ids
  import opened Instances
  import opened Graphs
  import opened Handlers
  import opened Traces

  // ---------- analysing the replies ----------

  /** The highest ballot among the replies that carry an instance. */
  function HighestBallot(rs: seq<PrepareResponse>): (b: Ballot)
    ensures forall k :: 0 <= k < |rs| && rs[k].instance.Some? ==> rs[k].instance.value.ballot <= b
  {
    if rs == [] then 0 else
      var b := HighestBallot(rs[..|rs| - 1]);
      var last := rs[|rs| - 1].instance;
      if last.Some? && last.value.ballot > b then last.value.ballot else b
  }

  /** Reply k carries an instance at the highest ballot. */
  predicate IsCandidate(rs: seq<PrepareResponse>, k: nat) {
    k < |rs| && rs[k].instance.Some? && rs[k].instance.value.ballot == HighestBallot(rs)
  }

  /** The first candidate with the highest status, if any has a status at all. */
  ghost predicate IsAnalysis(rs: seq<PrepareResponse>, res: Option<Instance>) {
    match res
    case None => forall k: nat :: IsCandidate(rs, k) ==> rs[k].instance.value.status == 0
    case Some(i) => i.status > 0 && exists k: nat ::
      && IsCandidate(rs, k) && rs[k].instance.value == i
      && (forall j: nat :: IsCandidate(rs, j) ==> rs[j].instance.value.status <= i.status)
      && (forall j: nat :: j < k && IsCandidate(rs, j) ==> rs[j].instance.value.status < i.status)
  }

  /** analyzePrepareResponses. */
  method AnalyzePrepareResponses(rs: seq<PrepareResponse>) returns (res: Option<Instance>)
    ensures IsAnalysis(rs, res)
  {
    var maxBallot: Ballot := 0;
    var seen := false;
    for k := 0 to |rs|
      invariant maxBallot == HighestBallot(rs[..k])
      invariant !seen ==> forall j :: 0 <= j < k ==> rs[j].instance.None?
    {
      assert rs[..k + 1][..k] == rs[..k];
      if rs[k].instance.Some? {
        seen := true;
        if rs[k].instance.value.ballot > maxBallot {
          maxBallot := rs[k].instance.value.ballot;
        }
      }
    }
    assert rs[..|rs|] == rs;
    if !seen {
      return None;
    }
    res := PickHighestStatus(rs, maxBallot);
  }

  method PickHighestStatus(rs: seq<PrepareResponse>, maxBallot: Ballot) returns (res: Option<Instance>)
    requires maxBallot == HighestBallot(rs)
    ensures IsAnalysis(rs, res)
  {
    var maxStatus: Status := 0;
    ghost var at: nat := 0;
    res := None;
    for k := 0 to |rs|
      invariant res.None? <==> maxStatus == 0
      invariant forall j: nat :: j < k && IsCandidate(rs, j) ==> rs[j].instance.value.status <= maxStatus
      invariant res.Some? ==> at < k && IsCandidate(rs, at) && res.value == rs[at].instance.value && res.value.status == maxStatus
      invariant res.Some? ==> forall j: nat :: j < at && IsCandidate(rs, j) ==> rs[j].instance.value.status < maxStatus
    {
      if rs[k].instance.None? || rs[k].instance.value.ballot < maxBallot {
        continue;
      }
      assert IsCandidate(rs, k);
      if rs[k].instance.value.status > maxStatus {
        maxStatus := rs[k].instance.value.status;
        res := rs[k].instance;
        at := k;
      }
    }
  }

  /** The analysis said outright: a reply with the highest ballot of all, among
      those the highest status, and among those the first. */
  lemma AnalysisMeans(rs: seq<PrepareResponse>, res: Option<Instance>)
    requires IsAnalysis(rs, res)
    ensures res.Some? ==> res.value.status > 0 && exists k :: 0 <= k < |rs| && rs[k].instance == res && IsFirstBest(rs, k)
    ensures res.None? ==> forall k :: 0 <= k < |rs| && rs[k].instance.Some? && rs[k].instance.value.status > 0 ==>
      exists j :: 0 <= j < |rs| && rs[j].instance.Some? && rs[j].instance.value.ballot > rs[k].instance.value.ballot
  {
    HighestIsAttained(rs);
    match res {
      case Some(i) =>
        var k: nat :| IsCandidate(rs, k) && rs[k].instance.value == i
          && (forall j: nat :: IsCandidate(rs, j) ==> rs[j].instance.value.status <= i.status)
          && (forall j: nat :: j < k && IsCandidate(rs, j) ==> rs[j].instance.value.status < i.status);
        assert rs[k].instance == res && IsFirstBest(rs, k);
      case None =>
        forall k | 0 <= k < |rs| && rs[k].instance.Some? && rs[k].instance.value.status > 0
          ensures exists j :: 0 <= j < |rs| && rs[j].instance.Some? && rs[j].instance.value.ballot > rs[k].instance.value.ballot
        {
          assert !IsCandidate(rs, k);
        }
    }
  }

  ghost predicate IsFirstBest(rs: seq<PrepareResponse>, k: nat) {
    && k < |rs| && rs[k].instance.Some?
    && (forall j :: 0 <= j < |rs| && rs[j].instance.Some? ==> rs[j].instance.value.ballot <= rs[k].instance.value.ballot)
    && (forall j :: 0 <= j < |rs| && rs[j].instance.Some? && rs[j].instance.value.ballot == rs[k].instance.value.ballot ==>
         rs[j].instance.value.status <= rs[k].instance.value.status)
    && (forall j :: 0 <= j < k && rs[j].instance.Some? && rs[j].instance.value.ballot == rs[k].instance.value.ballot ==>
         rs[j].instance.value.status < rs[k].instance.value.status)
  }

  /** An accepted reply has taken on the ballot of the request. */
  lemma AcceptedReplySharesBallot(m: InstanceMap, id: InstanceID, b: Ballot)
    ensures var r := PrepareReply(m, id, b);
      r.accepted && r.instance.Some? ==> r.instance.value.ballot == b && id in m && r.instance.value.status == m[id].status
  {
  }

  /** rs are replies to a prepare with ballot b for x, none of them a rejection. */
  ghost predicate Unrejected(rs: seq<PrepareResponse>, x: InstanceID, b: Ballot) {
    forall k :: 0 <= k < |rs| ==> rs[k].accepted && exists m :: rs[k] == PrepareReply(m, x, b)
  }

  lemma SharedBallotIsHighest(rs: seq<PrepareResponse>, b: Ballot, k: nat)
    requires forall j :: 0 <= j < |rs| && rs[j].instance.Some? ==> rs[j].instance.value.ballot == b
    requires k < |rs| && rs[k].instance.Some?
    ensures HighestBallot(rs) == b
  {
    assert rs[k].instance.value.ballot <= HighestBallot(rs);
    HighestIsAttained(rs);
  }

  lemma {:induction false} HighestIsAttained(rs: seq<PrepareResponse>)
    ensures HighestBallot(rs) == 0 || exists k :: 0 <= k < |rs| && rs[k].instance.Some? && rs[k].instance.value.ballot == HighestBallot(rs)
  {
    if rs != [] {
      HighestIsAttained(rs[..|rs| - 1]);
    }
  }

  /** With no rejection, the choice has the highest status any replica reported. */
  lemma UnrejectedPicksHighestStatus(rs: seq<PrepareResponse>, x: InstanceID, b: Ballot, res: Option<Instance>, k: nat)
    requires Unrejected(rs, x, b) && IsAnalysis(rs, res) && k < |rs| && rs[k].instance.Some?
    ensures rs[k].instance.value.status <= if res.Some? then res.value.status else 0
  {
    forall j | 0 <= j < |rs| && rs[j].instance.Some? ensures rs[j].instance.value.ballot == b {
      var m :| rs[j] == PrepareReply(m, x, b);
      AcceptedReplySharesBallot(m, x, b);
    }
    SharedBallotIsHighest(rs, b, k);
    assert IsCandidate(rs, k);
  }

  // ---------- quorums ----------

  /** The number of answers waited for among n replicas, the asking one
      included: len(replicas) counts the other n - 1. */
  function QuorumSize(n: nat): nat
    requires n > 0
  {
    (n - 1) / 2 + 1
  }

  /** Waiting for a quorum of answers to a message sent to the other replicas;
      arrived lists the answers that come in before the timeout. */
  method AwaitQuorum<T>(replicas: nat, arrived: seq<T>) returns (timedOut: bool, responses: seq<T>)
    ensures timedOut <==> 1 + |arrived| < QuorumSize(replicas + 1)
    ensures !timedOut ==> 1 + |responses| == QuorumSize(replicas + 1) && responses <= arrived
  {
    var numReceived := 1;
    var quorumSize := replicas / 2 + 1;
    responses := [];
    while numReceived < quorumSize
      invariant 1 + |responses| == numReceived <= quorumSize
      invariant responses <= arrived
      decreases quorumSize - numReceived
    {
      if numReceived - 1 == |arrived| {
        return true, [];
      }
      responses := responses + [arrived[numReceived - 1]];
      numReceived := numReceived + 1;
    }
    return false, responses;
  }

  ghost predicate IsQuorum(nodes: set<NodeId>, q: set<NodeId>) {
    q <= nodes && nodes != {} && |q| >= QuorumSize(|nodes|)
  }

  lemma OddQuorumsMeet(nodes: set<NodeId>, a: set<NodeId>, b: set<NodeId>)
    requires |nodes| % 2 == 1 && IsQuorum(nodes, a) && IsQuorum(nodes, b)
    ensures exists v :: v in a && v in b
  {
    SubsetIsNoLarger(a + b, nodes);
    assert |a + b| == |a| + |b| - |a * b|;
    assert a * b != {};
    var v :| v in a * b;
  }

  lemma {:induction false} SubsetOfSize(nodes: set<NodeId>, n: nat) returns (a: set<NodeId>)
    requires n <= |nodes|
    ensures a <= nodes && |a| == n
  {
    if n == 0 {
      a := {};
    } else {
      var x :| x in nodes;
      a := SubsetOfSize(nodes - {x}, n - 1);
      a := a + {x};
    }
  }

  /** Any two quorums of a replica group meet exactly when its size is odd. */
  lemma QuorumsMeetIffOdd(nodes: set<NodeId>)
    requires nodes != {}
    ensures (forall a, b :: IsQuorum(nodes, a) && IsQuorum(nodes, b) ==> exists v :: v in a && v in b)
       <==> |nodes| % 2 == 1
  {
    if |nodes| % 2 == 1 {
      forall a, b | IsQuorum(nodes, a) && IsQuorum(nodes, b) ensures exists v :: v in a && v in b {
        OddQuorumsMeet(nodes, a, b);
      }
    } else {
      var a := SubsetOfSize(nodes, |nodes| / 2);
      var b := nodes - a;
      assert |b| == |nodes| - |a|;
      assert IsQuorum(nodes, a) && IsQuorum(nodes, b) && !exists v :: v in a && v in b;
    }
  }

  /** Of two replicas each is a quorum by itself. */
  lemma PairSplits(u: NodeId, v: NodeId)
    requires u != v
    ensures IsQuorum({u, v}, {u}) && IsQuorum({u, v}, {v}) && {u} !! {v}
  {
    assert |{u, v}| == 2 && |{u}| == 1 && |{v}| == 1;
  }

  // ---------- recovery never discards what a quorum accepted ----------

  datatype History = History(states: seq<Replica>, labels: seq<Label>)

  /** Node v knew x as at least accepted at point i of its history. */
  ghost predicate AcceptedAt(h: History, i: nat, x: InstanceID) {
    && IsTrace(h.states, h.labels) && i < |h.states|
    && x in h.states[i].instances && h.states[i].instances[x].status >= ACCEPTED
  }

  lemma StaysAccepted(h: History, i: nat, j: nat, x: InstanceID)
    requires AcceptedAt(h, i, x) && i <= j < |h.states|
    ensures AcceptedAt(h, j, x)
  {
    hide Step;
    StatusNeverFalls(h.states, h.labels, i, j, x);
  }

  /** Whether a prepare that was not rejected commits a noop. */
  predicate TakesNoop(local: Instance, res: Option<Instance>) {
    res.None? && local.status <= PREACCEPTED
  }

  /** Replica group of odd size: a quorum has x as at least accepted, each at
      its own point accepted[v]; later, by every node's own clock, a leader
      prepares x with the replies of a quorum. It does not turn x into a noop. */
  lemma AcceptedIsNeverDiscarded(nodes: set<NodeId>, histories: map<NodeId, History>,
                                 a: set<NodeId>, accepted: map<NodeId, nat>,
                                 b: set<NodeId>, asked: map<NodeId, nat>, leader: NodeId,
                                 x: InstanceID, ballot: Ballot, rs: seq<PrepareResponse>, res: Option<Instance>)
    requires |nodes| % 2 == 1 && IsQuorum(nodes, a) && IsQuorum(nodes, b) && leader in b
    requires nodes <= histories.Keys && a <= accepted.Keys && b <= asked.Keys
    requires forall v :: v in a ==> AcceptedAt(histories[v], accepted[v], x)
    requires forall v :: v in b ==> asked[v] < |histories[v].states|
    requires forall v :: v in a && v in b ==> accepted[v] <= asked[v]
    requires x in histories[leader].states[asked[leader]].instances
    requires forall v :: v in b && v != leader ==>
      PrepareReply(histories[v].states[asked[v]].instances, x, ballot) in rs
    requires Unrejected(rs, x, ballot) && IsAnalysis(rs, res)
    ensures !TakesNoop(histories[leader].states[asked[leader]].instances[x], res)
  {
    hide IsTrace, Unrejected, IsAnalysis;
    OddQuorumsMeet(nodes, a, b);
    var v :| v in a && v in b;
    StaysAccepted(histories[v], accepted[v], asked[v], x);
    if v != leader {
      var reply := PrepareReply(histories[v].states[asked[v]].instances, x, ballot);
      var k :| 0 <= k < |rs| && rs[k] == reply;
      UnrejectedPicksHighestStatus(rs, x, ballot, res, k);
    }
  }
}
