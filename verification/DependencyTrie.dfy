/** The dependency manager as a value: a tree of read and write id sets, one
    node per key path, and what it does as an index over whole paths. */
module DependencyTrie {
  import opened Ids
  import opened Instructions

  type IdSet = set<InstanceID>
  type Path = seq<Text>

  /** One dependencies object without its children. */
  datatype Sets = Sets(writeIds: IdSet, readIds: IdSet, executed: IdSet, acknowledged: IdSet)

  datatype Node = Node(sets: Sets, sub: Forest)

  /** A dependencyMap. */
  type Forest = map<Text, Node>

  const NO_SETS: Sets := Sets({}, {}, {}, {})
  const NEW_NODE: Node := Node(NO_SETS, map[])

  /** dependencyMap.get: a missing child is created empty. */
  function Get(f: Forest, key: Text): Node {
    if key in f then f[key] else NEW_NODE
  }

  // ---------- on the sets of one node ----------

  function LocalDeps(s: Sets, readOnly: bool): IdSet {
    if readOnly then s.writeIds else s.writeIds + s.readIds
  }

  function Register(s: Sets, id: InstanceID, readOnly: bool): Sets {
    if readOnly then s.(readIds := s.readIds + {id}) else s.(writeIds := s.writeIds + {id})
  }

  /** Drops what has been both executed and acknowledged. */
  function Prune(s: Sets): Sets {
    var exAcked := s.executed * s.acknowledged;
    Sets(s.writeIds - exAcked, s.readIds - exAcked, s.executed - exAcked, s.acknowledged - exAcked)
  }

  /** The dependencies of an accepted or committed instance are acknowledged,
      the instance itself only if it was already. */
  function Acknowledge(s: Sets, id: InstanceID, deps: IdSet): Sets {
    var acked := s.acknowledged + deps;
    s.(acknowledged := if id in s.acknowledged then acked else acked - {id})
  }

  function MarkExecuted(s: Sets, id: InstanceID): Sets {
    s.(executed := s.executed + {id})
  }

  // ---------- on the tree; keys[0] names the node itself ----------

  function ChildDeps(n: Node, readOnly: bool): IdSet {
    LocalDeps(n.sets, readOnly) + (set k, x | k in n.sub && x in ChildDeps(n.sub[k], readOnly) :: x)
  }

  function SetDeps(n: Node, keys: Path, id: InstanceID, readOnly: bool): Node
    requires |keys| > 0
    decreases |keys|
  {
    if |keys| == 1 then n.(sets := Prune(Register(n.sets, id, readOnly)))
    else n.(sub := n.sub[keys[1] := SetDeps(Get(n.sub, keys[1]), keys[1..], id, readOnly)])
  }

  function GetDeps(n: Node, keys: Path, id: InstanceID, readOnly: bool): IdSet
    requires |keys| > 0
    decreases |keys|
  {
    (if |keys| == 1 then ChildDeps(n, readOnly)
     else LocalDeps(n.sets, readOnly) + GetDeps(Get(n.sub, keys[1]), keys[1..], id, readOnly)) - {id}
  }

  function ReportAcknowledged(n: Node, keys: Path, id: InstanceID, deps: IdSet): Node
    requires |keys| > 0
    decreases |keys|
  {
    if |keys| == 1 then n.(sets := Acknowledge(n.sets, id, deps))
    else n.(sub := n.sub[keys[1] := ReportAcknowledged(Get(n.sub, keys[1]), keys[1..], id, deps)])
  }

  /** Below the first key this descends into ReportAcknowledged, as the code does. */
  function ReportExecuted(n: Node, keys: Path, id: InstanceID, deps: IdSet): Node
    requires |keys| > 0
  {
    if |keys| == 1 then n.(sets := MarkExecuted(n.sets, id))
    else n.(sub := n.sub[keys[1] := ReportAcknowledged(Get(n.sub, keys[1]), keys[1..], id, deps)])
  }

  /** The same holds of AddDependency. */
  function AddDependency(n: Node, keys: Path, id: InstanceID, readOnly: bool, deps: IdSet): Node
    requires |keys| > 0
  {
    if |keys| == 1 then n.(sets := Register(n.sets, id, readOnly))
    else n.(sub := n.sub[keys[1] := ReportAcknowledged(Get(n.sub, keys[1]), keys[1..], id, deps)])
  }

  // ---------- calls on the dependency manager ----------

  datatype Call =
    | GetAndSetDeps(keys: Path, id: InstanceID, readOnly: bool)
    | Acknowledged(keys: Path, id: InstanceID, deps: IdSet)
    | Executed(keys: Path, id: InstanceID, deps: IdSet)
    | Added(keys: Path, id: InstanceID, readOnly: bool, deps: IdSet)

  function NodeAfter(n: Node, c: Call): Node
    requires c.keys != []
  {
    match c
    case GetAndSetDeps(keys, id, readOnly) => SetDeps(n, keys, id, readOnly)
    case Acknowledged(keys, id, deps) => ReportAcknowledged(n, keys, id, deps)
    case Executed(keys, id, deps) => ReportExecuted(n, keys, id, deps)
    case Added(keys, id, readOnly, deps) => AddDependency(n, keys, id, readOnly, deps)
  }

  /** A call with no key is an error and changes nothing. */
  function Perform(f: Forest, c: Call): Forest {
    if c.keys == [] then f else f[c.keys[0] := NodeAfter(Get(f, c.keys[0]), c)]
  }

  function Returned(f: Forest, c: Call): IdSet {
    if c.GetAndSetDeps? && c.keys != [] then GetDeps(Get(f, c.keys[0]), c.keys, c.id, c.readOnly) else {}
  }

  // ---------- the flat index ----------

  /** The sets at a path below n. */
  function SetsBelow(n: Node, path: Path): Sets
    decreases |path|
  {
    if path == [] then n.sets else SetsBelow(Get(n.sub, path[0]), path[1..])
  }

  function SetsAt(f: Forest, path: Path): Sets
    requires path != []
  {
    SetsBelow(Get(f, path[0]), path[1..])
  }

  /** What a call does to the sets at its own path. */
  function Effect(s: Sets, c: Call): Sets {
    match c
    case GetAndSetDeps(_, id, readOnly) => Prune(Register(s, id, readOnly))
    case Acknowledged(_, id, deps) => Acknowledge(s, id, deps)
    case Executed(keys, id, deps) => if |keys| == 1 then MarkExecuted(s, id) else Acknowledge(s, id, deps)
    case Added(keys, id, readOnly, deps) => if |keys| == 1 then Register(s, id, readOnly) else Acknowledge(s, id, deps)
  }

  predicate Comparable(p: Path, q: Path) {
    p <= q || q <= p
  }

  lemma {:induction false} AcknowledgeAt(n: Node, keys: Path, id: InstanceID, deps: IdSet, path: Path)
    requires |keys| > 0
    ensures SetsBelow(ReportAcknowledged(n, keys, id, deps), path) ==
            if path == keys[1..] then Acknowledge(SetsBelow(n, path), id, deps) else SetsBelow(n, path)
    decreases |keys|
  {
    if |keys| > 1 && path != [] {
      if path[0] == keys[1] {
        AcknowledgeAt(Get(n.sub, keys[1]), keys[1..], id, deps, path[1..]);
        assert path == [path[0]] + path[1..] && keys[1..] == [keys[1]] + keys[1..][1..];
      }
    }
  }

  lemma {:induction false} SetDepsAt(n: Node, keys: Path, id: InstanceID, readOnly: bool, path: Path)
    requires |keys| > 0
    ensures SetsBelow(SetDeps(n, keys, id, readOnly), path) ==
            if path == keys[1..] then Prune(Register(SetsBelow(n, path), id, readOnly)) else SetsBelow(n, path)
    decreases |keys|
  {
    if |keys| > 1 && path != [] {
      if path[0] == keys[1] {
        SetDepsAt(Get(n.sub, keys[1]), keys[1..], id, readOnly, path[1..]);
        assert path == [path[0]] + path[1..] && keys[1..] == [keys[1]] + keys[1..][1..];
      }
    }
  }

  /** A call changes the sets at its own path, as Effect says, and no others. */
  lemma PerformAt(f: Forest, c: Call, path: Path)
    requires path != []
    ensures SetsAt(Perform(f, c), path) == if path == c.keys then Effect(SetsAt(f, path), c) else SetsAt(f, path)
  {
    hide Prune, Acknowledge;
    if c.keys != [] && path[0] == c.keys[0] {
      var n := Get(f, c.keys[0]);
      assert path == [path[0]] + path[1..] && c.keys == [c.keys[0]] + c.keys[1..];
      match c
      case GetAndSetDeps(keys, id, readOnly) => SetDepsAt(n, keys, id, readOnly, path[1..]);
      case Acknowledged(keys, id, deps) => AcknowledgeAt(n, keys, id, deps, path[1..]);
      case Executed(keys, id, deps) => if |keys| > 1 { AcknowledgeBelow(n, keys, id, deps, path[1..]); }
      case Added(keys, id, readOnly, deps) => if |keys| > 1 { AcknowledgeBelow(n, keys, id, deps, path[1..]); }
    }
  }

  lemma AcknowledgeBelow(n: Node, keys: Path, id: InstanceID, deps: IdSet, path: Path)
    requires |keys| > 1
    ensures SetsBelow(n.(sub := n.sub[keys[1] := ReportAcknowledged(Get(n.sub, keys[1]), keys[1..], id, deps)]), path) ==
            if path == keys[1..] then Acknowledge(SetsBelow(n, path), id, deps) else SetsBelow(n, path)
  {
    AcknowledgeAt(n, keys, id, deps, path);
  }

  lemma {:induction false} NothingBelowNew(path: Path)
    ensures SetsBelow(NEW_NODE, path) == NO_SETS
  {
    if path != [] {
      NothingBelowNew(path[1..]);
    }
  }

  lemma {:induction false} ChildDepsHasPath(n: Node, readOnly: bool, x: InstanceID) returns (path: Path)
    requires x in ChildDeps(n, readOnly)
    ensures x in LocalDeps(SetsBelow(n, path), readOnly)
    decreases n
  {
    if x in LocalDeps(n.sets, readOnly) {
      path := [];
    } else {
      var k :| k in n.sub && x in ChildDeps(n.sub[k], readOnly);
      path := ChildDepsHasPath(n.sub[k], readOnly, x);
      path := [k] + path;
    }
  }

  lemma {:induction false} PathIsInChildDeps(n: Node, readOnly: bool, x: InstanceID, path: Path)
    requires x in LocalDeps(SetsBelow(n, path), readOnly)
    ensures x in ChildDeps(n, readOnly)
    decreases |path|
  {
    if path != [] {
      if path[0] in n.sub {
        PathIsInChildDeps(n.sub[path[0]], readOnly, x, path[1..]);
      } else {
        NothingBelowNew(path[1..]);
      }
    }
  }

  lemma {:induction false} DepsHavePath(n: Node, keys: Path, id: InstanceID, readOnly: bool, x: InstanceID) returns (path: Path)
    requires |keys| > 0 && x in GetDeps(n, keys, id, readOnly)
    ensures x != id && Comparable(path, keys[1..]) && x in LocalDeps(SetsBelow(n, path), readOnly)
    decreases |keys|
  {
    if |keys| == 1 {
      path := ChildDepsHasPath(n, readOnly, x);
    } else if x in LocalDeps(n.sets, readOnly) {
      path := [];
    } else {
      path := DepsHavePath(Get(n.sub, keys[1]), keys[1..], id, readOnly, x);
      ComparableCons(keys[1], path, keys[1..][1..]);
      assert keys[1..] == [keys[1]] + keys[1..][1..];
      path := [keys[1]] + path;
    }
  }

  lemma ComparableCons(k: Text, p: Path, q: Path)
    ensures Comparable([k] + p, [k] + q) <==> Comparable(p, q)
  {
    if [k] + p <= [k] + q {
      assert p == ([k] + p)[1..] && q == ([k] + q)[1..];
    }
    if [k] + q <= [k] + p {
      assert p == ([k] + p)[1..] && q == ([k] + q)[1..];
    }
  }

  lemma {:induction false} PathIsInDeps(n: Node, keys: Path, id: InstanceID, readOnly: bool, x: InstanceID, path: Path)
    requires |keys| > 0 && x != id && Comparable(path, keys[1..]) && x in LocalDeps(SetsBelow(n, path), readOnly)
    ensures x in GetDeps(n, keys, id, readOnly)
    decreases |keys|
  {
    if |keys| == 1 {
      PathIsInChildDeps(n, readOnly, x, path);
    } else if path != [] {
      assert keys[1..] == [keys[1]] + keys[1..][1..] && path == [path[0]] + path[1..];
      assert path[0] == keys[1];
      ComparableCons(keys[1], path[1..], keys[1..][1..]);
      PathIsInDeps(Get(n.sub, keys[1]), keys[1..], id, readOnly, x, path[1..]);
    }
  }

  ghost predicate Interferes(f: Forest, c: Call, x: InstanceID, path: Path)
    requires c.GetAndSetDeps?
  {
    path != [] && (path <= c.keys || c.keys <= path)
    && (x in SetsAt(f, path).writeIds || (!c.readOnly && x in SetsAt(f, path).readIds))
  }

  /** The dependencies returned are exactly the ids registered at a path that
      extends, equals or is a prefix of the instance's path: writes for a read,
      reads and writes for a write, and never the instance itself. */
  lemma ReturnedIsExact(f: Forest, c: Call, x: InstanceID)
    requires c.GetAndSetDeps? && c.keys != []
    ensures x in Returned(f, c) <==> x != c.id && exists path :: Interferes(f, c, x, path)
  {
    var k, n := c.keys[0], Get(f, c.keys[0]);
    assert c.keys == [k] + c.keys[1..];
    if x in Returned(f, c) {
      var path := DepsHavePath(n, c.keys, c.id, c.readOnly, x);
      ComparableCons(k, path, c.keys[1..]);
      assert ([k] + path)[1..] == path;
      assert Interferes(f, c, x, [k] + path);
    }
    if x != c.id && exists path :: Interferes(f, c, x, path) {
      var path :| Interferes(f, c, x, path);
      assert path == [path[0]] + path[1..] && path[0] == k;
      ComparableCons(k, path[1..], c.keys[1..]);
      PathIsInDeps(n, c.keys, c.id, c.readOnly, x, path[1..]);
    }
  }
}
