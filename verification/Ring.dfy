/** The token ring: routing a token to its replicas, and what joining changes. */
module Rings {
  import opened Bytes
  import opened Instances

  type Token = seq<Byte>

  datatype RingNode = RingNode(id: NodeId, token: Token)

  // ---------- the ring ----------

  ghost predicate Sorted(ring: seq<RingNode>) {
    forall i, j :: 0 <= i < j < |ring| ==> !BytesLess(ring[j].token, ring[i].token)
  }

  ghost predicate DistinctIds(ring: seq<RingNode>) {
    forall i, j :: 0 <= i < j < |ring| ==> ring[i].id != ring[j].id
  }

  type NodeMap = map<NodeId, RingNode>

  ghost predicate Lists(nodes: NodeMap, ring: seq<RingNode>) {
    && DistinctIds(ring)
    && (forall i :: 0 <= i < |ring| ==> ring[i].id in nodes && nodes[ring[i].id] == ring[i])
    && (forall id :: id in nodes ==> nodes[id] in ring)
  }

  /** ring holds every known node once, in token order. */
  ghost predicate IsTokenRing(nodes: NodeMap, ring: seq<RingNode>) {
    Lists(nodes, ring) && Sorted(ring)
  }

  ghost predicate KeyedById(nodes: NodeMap) {
    forall id :: id in nodes ==> nodes[id].id == id
  }

  method InsertByToken(ring: seq<RingNode>, n: RingNode) returns (r: seq<RingNode>, ghost k: nat)
    requires Sorted(ring)
    ensures k <= |ring| && r == InsertAt(ring, k, n) && Sorted(r)
  {
    hide BytesLess;
    k := 0;
    var i := 0;
    while i < |ring| && !BytesLess(n.token, ring[i].token)
      invariant i <= |ring|
      invariant forall j :: 0 <= j < i ==> !BytesLess(n.token, ring[j].token)
    {
      i := i + 1;
    }
    k := i;
    r := ring[..i] + [n] + ring[i..];
    forall j | i <= j < |ring| ensures !BytesLess(ring[j].token, n.token) {
      BytesLessTotal(n.token, ring[i].token);
      if i < j {
        NotLessTrans(n.token, ring[i].token, ring[j].token);
      }
    }
  }

  /** refreshRing: the known nodes in no particular order, then sorted. */
  method SortNodes(nodes: NodeMap) returns (ring: seq<RingNode>)
    requires KeyedById(nodes)
    ensures IsTokenRing(nodes, ring)
  {
    hide Sorted;
    ring := [];
    EmptyRing();
    ghost var done: NodeMap := map[];
    var rest := nodes.Keys;
    while rest != {}
      invariant Sorted(ring) && Lists(done, ring) && rest <= nodes.Keys
      invariant done.Keys == nodes.Keys - rest && forall id :: id in done ==> done[id] == nodes[id]
      decreases |rest|
    {
      var id :| id in rest;
      ghost var before := ring;
      ghost var k;
      ring, k := InsertByToken(ring, nodes[id]);
      ListsOneMore(done, before, nodes[id], k);
      done := done[id := nodes[id]];
      rest := rest - {id};
    }
    assert done == nodes;
  }

  lemma EmptyRing()
    ensures IsTokenRing(map[], [])
  {
  }

  function InsertAt(ring: seq<RingNode>, k: nat, n: RingNode): seq<RingNode>
    requires k <= |ring|
  {
    ring[..k] + [n] + ring[k..]
  }

  lemma InsertedAt(ring: seq<RingNode>, k: nat, n: RingNode, i: nat)
    requires k <= |ring| && i <= |ring|
    ensures |InsertAt(ring, k, n)| == |ring| + 1
    ensures InsertAt(ring, k, n)[i] == if i < k then ring[i] else if i == k then n else ring[i - 1]
  {
  }

  lemma InsertedMembers(ring: seq<RingNode>, k: nat, n: RingNode)
    requires k <= |ring|
    ensures |InsertAt(ring, k, n)| == |ring| + 1
    ensures forall x :: x in InsertAt(ring, k, n) <==> x in ring || x == n
  {
    assert ring == ring[..k] + ring[k..];
  }

  lemma ListsOneMore(nodes: NodeMap, ring: seq<RingNode>, n: RingNode, k: nat)
    requires Lists(nodes, ring) && n.id !in nodes && k <= |ring|
    ensures Lists(nodes[n.id := n], InsertAt(ring, k, n))
  {
    hide InsertAt;
    InsertedMembers(ring, k, n);
    var r := InsertAt(ring, k, n);
    forall i, j | 0 <= i < j < |r| ensures r[i].id != r[j].id {
      InsertedAt(ring, k, n, i);
      InsertedAt(ring, k, n, j);
    }
    forall i | 0 <= i < |r| ensures r[i] == n || (r[i].id in nodes && nodes[r[i].id] == r[i] && r[i].id != n.id) {
      InsertedAt(ring, k, n, i);
    }
  }

  // ---------- routing ----------

  /** The first node whose token is not below t, by scanning from the start. */
  function OwnerIndex(ring: seq<RingNode>, t: Token): (i: nat)
    ensures i <= |ring|
    ensures forall j :: 0 <= j < i ==> BytesLess(ring[j].token, t)
    ensures i < |ring| ==> !BytesLess(ring[i].token, t)
  {
    if ring == [] || !BytesLess(ring[0].token, t) then 0 else 1 + OwnerIndex(ring[1..], t)
  }

  /** All nodes, clockwise from the owner of t. */
  function Clockwise(ring: seq<RingNode>, t: Token): seq<RingNode> {
    ring[OwnerIndex(ring, t)..] + ring[..OwnerIndex(ring, t)]
  }

  function Replicas(ring: seq<RingNode>, t: Token, factor: nat): seq<RingNode> {
    Clockwise(ring, t)[..if |ring| < factor then |ring| else factor]
  }

  /** sort.Search over the ring. */
  method Search(ring: seq<RingNode>, t: Token) returns (i: nat)
    requires Sorted(ring)
    ensures i == OwnerIndex(ring, t)
  {
    hide BytesLess;
    i := 0;
    var j := |ring|;
    while i < j
      invariant 0 <= i <= j <= |ring|
      invariant forall k :: 0 <= k < i ==> BytesLess(ring[k].token, t)
      invariant j < |ring| ==> !BytesLess(ring[j].token, t)
    {
      var h := i + (j - i) / 2;
      if BytesLess(ring[h].token, t) {
        forall k | 0 <= k < h ensures BytesLess(ring[k].token, t) {
          BelowStaysBelow(ring[k].token, ring[h].token, t);
        }
        i := h + 1;
      } else {
        j := h;
      }
    }
  }

  lemma BelowStaysBelow(a: Token, b: Token, t: Token)
    requires !BytesLess(b, a) && BytesLess(b, t)
    ensures BytesLess(a, t)
  {
    BytesLessTotal(a, b);
    if a != b {
      BytesLessTrans(a, b, t);
    }
  }

  class Ring {
    var nodeMap: NodeMap
    var tokenRing: seq<RingNode>
    var priorRing: seq<RingNode>

    ghost predicate Valid()
      reads this
    {
      KeyedById(nodeMap) && IsTokenRing(nodeMap, tokenRing)
    }

    constructor ()
      ensures Valid() && nodeMap == map[] && tokenRing == [] && priorRing == []
    {
      nodeMap, tokenRing, priorRing := map[], [], [];
    }

    /** False when the node is already part of the ring. */
    method AddNode(n: RingNode) returns (ok: bool)
      requires Valid()
      modifies this
      ensures Valid() && ok == (n.id !in old(nodeMap))
      ensures ok ==> nodeMap == old(nodeMap)[n.id := n] && priorRing == old(tokenRing)
      ensures !ok ==> nodeMap == old(nodeMap) && tokenRing == old(tokenRing) && priorRing == old(priorRing)
    {
      if n.id in nodeMap {
        return false;
      }
      nodeMap := nodeMap[n.id := n];
      var nodes := SortNodes(nodeMap);
      priorRing := tokenRing;
      tokenRing := nodes;
      return true;
    }

    /** The nodes that replicate t, by binary search and wrapping around. */
    method GetNodesForToken(t: Token, factor: nat) returns (nodes: seq<RingNode>)
      requires Valid()
      ensures nodes == Replicas(tokenRing, t, factor)
    {
      hide Wrap, Clockwise, OwnerIndex;
      ClockwiseLength(tokenRing, t);
      var ringLen := |tokenRing|;
      var numNodes := if ringLen < factor then ringLen else factor;
      var idx := Search(tokenRing, t);
      nodes := [];
      for i := 0 to numNodes
        invariant |nodes| == i
        invariant forall k :: 0 <= k < i ==> nodes[k] == Clockwise(tokenRing, t)[k]
      {
        WrapsAround(tokenRing, t, i);
        nodes := nodes + [tokenRing[Wrap(idx + i, ringLen)]];
      }
    }
  }

  function Wrap(a: nat, n: nat): (r: nat)
    requires n > 0
    ensures r < n
  {
    a % n
  }

  lemma ClockwiseLength(ring: seq<RingNode>, t: Token)
    ensures |Clockwise(ring, t)| == |ring|
  {
  }

  lemma WrapsAround(ring: seq<RingNode>, t: Token, i: nat)
    requires i < |ring|
    ensures |Clockwise(ring, t)| == |ring|
    ensures Clockwise(ring, t)[i] == ring[Wrap(OwnerIndex(ring, t) + i, |ring|)]
  {
    hide Wrap;
    var idx := OwnerIndex(ring, t);
    WrapIs(idx + i, |ring|);
  }

  /** Replica k is the node k steps on from the owner, modulo the ring. */
  lemma ReplicasAre(ring: seq<RingNode>, t: Token, factor: nat, k: nat)
    requires k < |ring| && k < factor
    ensures k < |Replicas(ring, t, factor)| && Replicas(ring, t, factor)[k] == ring[(OwnerIndex(ring, t) + k) % |ring|]
    ensures |Replicas(ring, t, factor)| <= factor
  {
    hide Clockwise;
    WrapsAround(ring, t, k);
  }

  lemma WrapIs(a: nat, n: nat)
    requires a < 2 * n
    ensures Wrap(a, n) == if a < n then a else a - n
  {
    if a >= n {
      assert a == n + (a - n);
    }
  }
}
