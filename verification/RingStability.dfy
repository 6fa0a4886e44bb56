/** With distinct tokens the ring depends only on which nodes are in it, and a
    joining node disturbs each replica set as little as possible. */
module RingStability {
  import opened Bytes
  import opened Rings

  ghost predicate DistinctTokens(nodes: NodeMap) {
    forall a, b :: a in nodes && b in nodes && a != b ==> nodes[a].token != nodes[b].token
  }

  ghost predicate Increasing(ring: seq<RingNode>) {
    forall i, j :: 0 <= i < j < |ring| ==> BytesLess(ring[i].token, ring[j].token)
  }

  lemma RingIsIncreasing(nodes: NodeMap, ring: seq<RingNode>)
    requires IsTokenRing(nodes, ring) && DistinctTokens(nodes)
    ensures Increasing(ring)
  {
    hide BytesLess;
    forall i, j | 0 <= i < j < |ring| ensures BytesLess(ring[i].token, ring[j].token) {
      BytesLessTotal(ring[i].token, ring[j].token);
    }
  }

  lemma TailIsIncreasing(ring: seq<RingNode>, x: RingNode)
    requires Increasing(ring) && ring != []
    ensures Increasing(ring[1..])
    ensures x in ring[1..] <==> x in ring && x != ring[0]
  {
    hide BytesLess;
    assert ring == [ring[0]] + ring[1..];
    if x in ring[1..] {
      var i :| 0 <= i < |ring[1..]| && ring[1..][i] == x;
      assert ring[i + 1] == x;
      BytesLessTotal(ring[0].token, ring[0].token);
    }
  }

  lemma HasMember(r: seq<RingNode>)
    requires r != []
    ensures exists x :: x in r
  {
    assert r[0] in r;
  }

  lemma {:induction false} IncreasingIsUnique(r: seq<RingNode>, r': seq<RingNode>)
    requires Increasing(r) && Increasing(r') && forall x :: x in r <==> x in r'
    ensures r == r'
    decreases |r|
  {
    hide BytesLess;
    if r == [] {
      if r' != [] {
        HasMember(r');
        assert false;
      }
    } else {
      assert r[0] in r' && r' != [] && r'[0] in r;
      if r[0] != r'[0] {
        TailIsIncreasing(r, r'[0]);
        TailIsIncreasing(r', r[0]);
        BytesLessTotal(r[0].token, r'[0].token);
        assert false;
      }
      forall x ensures x in r[1..] <==> x in r'[1..] {
        TailIsIncreasing(r, x);
        TailIsIncreasing(r', x);
      }
      TailIsIncreasing(r, r[0]);
      TailIsIncreasing(r', r[0]);
      IncreasingIsUnique(r[1..], r'[1..]);
      assert r == [r[0]] + r[1..] && r' == [r'[0]] + r'[1..];
    }
  }

  /** The nodes alone determine the ring. */
  lemma RingIsUnique(nodes: NodeMap, r: seq<RingNode>, r': seq<RingNode>)
    requires IsTokenRing(nodes, r) && IsTokenRing(nodes, r') && DistinctTokens(nodes)
    ensures r == r'
  {
    hide Sorted;
    RingIsIncreasing(nodes, r);
    RingIsIncreasing(nodes, r');
    IncreasingIsUnique(r, r');
  }

  // ---------- the order in which nodes are added ----------

  function NodesOf(ns: seq<RingNode>): NodeMap {
    if ns == [] then map[] else
      var nodes, n := NodesOf(ns[..|ns| - 1]), ns[|ns| - 1];
      if n.id in nodes then nodes else nodes[n.id := n]
  }

  lemma {:induction false} NodesOfDistinct(ns: seq<RingNode>, x: RingNode)
    requires DistinctIds(ns)
    ensures x in ns <==> x.id in NodesOf(ns) && NodesOf(ns)[x.id] == x
    ensures forall id :: id in NodesOf(ns) ==> NodesOf(ns)[id].id == id && NodesOf(ns)[id] in ns
  {
    if ns != [] {
      var front, n := ns[..|ns| - 1], ns[|ns| - 1];
      NodesOfDistinct(front, x);
      NodesOfDistinct(front, n);
      assert ns == front + [n];
      assert n.id !in NodesOf(front);
    }
  }

  /** Adding the same nodes in another order gives the same ring. */
  lemma OrderOfJoiningIsIrrelevant(ns: seq<RingNode>, ns': seq<RingNode>, r: seq<RingNode>, r': seq<RingNode>)
    requires DistinctIds(ns) && DistinctIds(ns') && forall x :: x in ns <==> x in ns'
    requires DistinctTokens(NodesOf(ns)) && IsTokenRing(NodesOf(ns), r) && IsTokenRing(NodesOf(ns'), r')
    ensures r == r'
  {
    hide IsTokenRing, DistinctTokens, NodesOf;
    var a, b := NodesOf(ns), NodesOf(ns');
    forall id | id in a ensures id in b && b[id] == a[id] {
      NodesOfDistinct(ns, a[id]);
      NodesOfDistinct(ns', a[id]);
    }
    forall id | id in b ensures id in a && a[id] == b[id] {
      NodesOfDistinct(ns', b[id]);
      NodesOfDistinct(ns, b[id]);
    }
    assert a == b;
    RingIsUnique(a, r, r');
  }

  // ---------- joining ----------

  lemma InsertKeepsIncreasing(ring: seq<RingNode>, n: RingNode)
    requires Increasing(ring) && forall x :: x in ring ==> x.token != n.token
    ensures Increasing(InsertAt(ring, OwnerIndex(ring, n.token), n))
  {
    hide BytesLess, OwnerIndex, InsertAt;
    var k := OwnerIndex(ring, n.token);
    var r := InsertAt(ring, k, n);
    InsertedMembers(ring, k, n);
    forall i, j | 0 <= i < j < |r| ensures BytesLess(r[i].token, r[j].token) {
      InsertedAt(ring, k, n, i);
      InsertedAt(ring, k, n, j);
      if i == k {
        BytesLessTotal(n.token, ring[k].token);
        assert ring[k] in ring;
        if k < j - 1 {
          BytesLessTrans(n.token, ring[k].token, ring[j - 1].token);
        }
      }
    }
  }

  /** A joining node is inserted where its token falls; the rest stays in place. */
  lemma JoinInserts(nodes: NodeMap, ring: seq<RingNode>, n: RingNode, ring': seq<RingNode>)
    requires n.id !in nodes && DistinctTokens(nodes[n.id := n])
    requires IsTokenRing(nodes, ring) && IsTokenRing(nodes[n.id := n], ring')
    ensures ring' == InsertAt(ring, OwnerIndex(ring, n.token), n)
  {
    hide BytesLess, OwnerIndex, InsertAt;
    var nodes' := nodes[n.id := n];
    var k := OwnerIndex(ring, n.token);
    forall a, b | a in nodes && b in nodes && a != b ensures nodes[a].token != nodes[b].token {
      assert nodes'[a] == nodes[a] && nodes'[b] == nodes[b];
    }
    RingIsIncreasing(nodes, ring);
    RingIsIncreasing(nodes', ring');
    forall x | x in ring ensures x.token != n.token {
      assert nodes'[x.id] == x && nodes'[n.id] == n;
    }
    InsertKeepsIncreasing(ring, n);
    InsertedMembers(ring, k, n);
    ListsOneMore(nodes, ring, n, k);
    ListsSameMembers(nodes', ring', InsertAt(ring, k, n));
    IncreasingIsUnique(ring', InsertAt(ring, k, n));
  }

  lemma ListsSameMembers(nodes: NodeMap, r: seq<RingNode>, r': seq<RingNode>)
    requires Lists(nodes, r) && Lists(nodes, r')
    ensures forall x :: x in r <==> x in r'
  {
  }

  lemma OwnerIndexIs(ring: seq<RingNode>, t: Token, i: nat)
    requires i <= |ring| && forall j :: 0 <= j < i ==> BytesLess(ring[j].token, t)
    requires i < |ring| ==> !BytesLess(ring[i].token, t)
    ensures OwnerIndex(ring, t) == i
  {
    hide BytesLess;
    var k := OwnerIndex(ring, t);
    assert !(k < i) && !(i < k);
  }

  /** Where the joining node n ends up when the ring is read clockwise from t. */
  function JoinPosition(ring: seq<RingNode>, n: RingNode, t: Token): int {
    var k, i := OwnerIndex(ring, n.token), OwnerIndex(ring, t);
    if BytesLess(n.token, t) then |ring| - i + k else k - i
  }

  lemma OwnerIndexMonotone(ring: seq<RingNode>, s: Token, t: Token)
    requires !BytesLess(t, s)
    ensures OwnerIndex(ring, s) <= OwnerIndex(ring, t)
  {
    hide BytesLess;
    var i := OwnerIndex(ring, t);
    if i < |ring| && i < OwnerIndex(ring, s) {
      NotLessTrans(s, t, ring[i].token);
    }
  }

  lemma JoinedOwner(ring: seq<RingNode>, n: RingNode, t: Token)
    ensures var k, i := OwnerIndex(ring, n.token), OwnerIndex(ring, t);
      if BytesLess(n.token, t) then k <= i && OwnerIndex(InsertAt(ring, k, n), t) == i + 1
      else i <= k && OwnerIndex(InsertAt(ring, k, n), t) == i
  {
    hide BytesLess, OwnerIndex, InsertAt;
    var k, i := OwnerIndex(ring, n.token), OwnerIndex(ring, t);
    var r := InsertAt(ring, k, n);
    InsertedMembers(ring, k, n);
    BytesLessTotal(n.token, t);
    if BytesLess(n.token, t) {
      OwnerIndexMonotone(ring, n.token, t);
      forall j | 0 <= j < i + 1 ensures BytesLess(r[j].token, t) {
        InsertedAt(ring, k, n, j);
      }
      if i + 1 < |r| { InsertedAt(ring, k, n, i + 1); }
      OwnerIndexIs(r, t, i + 1);
    } else {
      OwnerIndexMonotone(ring, t, n.token);
      forall j | 0 <= j < i ensures BytesLess(r[j].token, t) {
        InsertedAt(ring, k, n, j);
      }
      InsertedAt(ring, k, n, i);
      OwnerIndexIs(r, t, i);
    }
  }

  /** Read clockwise from any token, the new ring is the old one with the
      joining node inserted somewhere. */
  lemma JoinedClockwise(ring: seq<RingNode>, n: RingNode, t: Token)
    ensures |Clockwise(ring, t)| == |ring| && 0 <= JoinPosition(ring, n, t) <= |ring|
    ensures Clockwise(InsertAt(ring, OwnerIndex(ring, n.token), n), t) ==
            InsertAt(Clockwise(ring, t), JoinPosition(ring, n, t), n)
  {
    hide BytesLess, OwnerIndex, InsertAt;
    JoinedOwner(ring, n, t);
    var k, i := OwnerIndex(ring, n.token), OwnerIndex(ring, t);
    if BytesLess(n.token, t) {
      InsertBeforeCut(ring, k, i, n);
    } else {
      InsertAfterCut(ring, k, i, n);
    }
  }

  lemma InsertBeforeCut(ring: seq<RingNode>, k: nat, i: nat, n: RingNode)
    requires k <= i <= |ring|
    ensures InsertAt(ring, k, n)[i + 1..] + InsertAt(ring, k, n)[..i + 1] ==
            InsertAt(ring[i..] + ring[..i], |ring| - i + k, n)
  {
    assert InsertAt(ring, k, n)[i + 1..] == ring[i..];
    assert InsertAt(ring, k, n)[..i + 1] == ring[..k] + [n] + ring[k..i];
  }

  lemma InsertAfterCut(ring: seq<RingNode>, k: nat, i: nat, n: RingNode)
    requires i <= k <= |ring|
    ensures InsertAt(ring, k, n)[i..] + InsertAt(ring, k, n)[..i] == InsertAt(ring[i..] + ring[..i], k - i, n)
  {
    assert InsertAt(ring, k, n)[i..] == ring[i..k] + [n] + ring[k..];
    assert InsertAt(ring, k, n)[..i] == ring[..i];
  }

  /** Taking a prefix after an insertion adds at most the new element and drops
      at most one old one. */
  lemma PrefixAfterInsert(c: seq<RingNode>, pos: nat, n: RingNode, factor: nat, a: RingNode, b: RingNode)
    requires pos <= |c|
    ensures var s := c[..if |c| < factor then |c| else factor];
      var s' := InsertAt(c, pos, n)[..if |c| + 1 < factor then |c| + 1 else factor];
      && (a in s' ==> a in s || a == n)
      && (a in s && a !in s' && b in s && b !in s' ==> a == b)
  {
    var k := if |c| < factor then |c| else factor;
    var k' := if |c| + 1 < factor then |c| + 1 else factor;
    var c' := InsertAt(c, pos, n);
    if pos >= k' {
      assert c'[..k'] == c[..k'];
    } else {
      assert c'[..k'] == c[..pos] + [n] + c[pos..k' - 1];
      assert c[..k' - 1] == c[..pos] + c[pos..k' - 1];
      assert k == k' - 1 || c[..k] == c[..k - 1] + [c[k - 1]];
    }
  }

  predicate Dropped(ring: seq<RingNode>, ring': seq<RingNode>, t: Token, factor: nat, x: RingNode) {
    x in Replicas(ring, t, factor) && x !in Replicas(ring', t, factor)
  }

  /** When a node joins, any token's replicas change by at most gaining that
      node and losing one of the old ones. */
  lemma JoinDisturbsLittle(nodes: NodeMap, ring: seq<RingNode>, n: RingNode, ring': seq<RingNode>, t: Token, factor: nat, a: RingNode, b: RingNode)
    requires n.id !in nodes && DistinctTokens(nodes[n.id := n])
    requires IsTokenRing(nodes, ring) && IsTokenRing(nodes[n.id := n], ring')
    ensures a in Replicas(ring', t, factor) ==> a in Replicas(ring, t, factor) || a == n
    ensures Dropped(ring, ring', t, factor, a) && Dropped(ring, ring', t, factor, b) ==> a == b
  {
    hide IsTokenRing, DistinctTokens, Clockwise, OwnerIndex;
    JoinInserts(nodes, ring, n, ring');
    JoinedClockwise(ring, n, t);
    PrefixAfterInsert(Clockwise(ring, t), JoinPosition(ring, n, t), n, factor, a, b);
  }

  /** A token has min(factor, ring size) replicas, all different, starting with
      the first node whose token is not below it. */
  lemma ReplicasAreDistinct(nodes: NodeMap, ring: seq<RingNode>, t: Token, factor: nat)
    requires IsTokenRing(nodes, ring)
    ensures |Replicas(ring, t, factor)| == if |ring| < factor then |ring| else factor
    ensures DistinctIds(Replicas(ring, t, factor))
  {
    hide BytesLess, OwnerIndex, Sorted;
    var c := Clockwise(ring, t);
    var i := OwnerIndex(ring, t);
    forall j, k | 0 <= j < k < |c| ensures c[j].id != c[k].id {
      assert c[j] == if j < |ring| - i then ring[i + j] else ring[j - (|ring| - i)];
      assert c[k] == if k < |ring| - i then ring[i + k] else ring[k - (|ring| - i)];
    }
  }
}
