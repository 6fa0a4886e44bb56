/** The dependency manager as the code keeps it: objects updated in place. */
module DependencyManagers {
  import opened Ids
  import opened Instructions
  import opened DependencyTrie

  class Dependencies {
    var writeIds: IdSet
    var readIds: IdSet
    var executed: IdSet
    var acknowledged: IdSet
    var sub: map<Text, Dependencies>
    ghost var Repr: set<Dependencies>
    ghost var node: Node  // this object and its children as a value

    ghost predicate Valid()
      reads this, Repr
      ensures Valid() ==> this in Repr
      decreases Repr
    {
      && this in Repr
      && node.sets == OwnSets() && node.sub.Keys == sub.Keys
      && (forall k :: k in sub ==> ValidChild(k))
      && (forall k, j :: k in sub && j in sub && k != j ==> sub[k].Repr !! sub[j].Repr)
    }

    ghost predicate ValidChild(k: Text)
      requires k in sub && k in node.sub && this in Repr
      reads this, Repr
      decreases Repr, 0
    {
      && sub[k] in Repr && sub[k].Repr <= Repr && this !in sub[k].Repr
      && sub[k].Valid() && sub[k].node == node.sub[k]
    }

    function OwnSets(): Sets
      reads this
    {
      Sets(writeIds, readIds, executed, acknowledged)
    }

    constructor ()
      ensures Valid() && fresh(Repr) && node == NEW_NODE
    {
      writeIds, readIds, executed, acknowledged := {}, {}, {}, {};
      sub := map[];
      Repr := {this};
      node := NEW_NODE;
    }

    method GetLocalDeps(readOnly: bool) returns (deps: IdSet)
      ensures deps == LocalDeps(OwnSets(), readOnly)
    {
      deps := writeIds;
      if !readOnly {
        deps := deps + readIds;
      }
    }

    method GetChildDeps(readOnly: bool) returns (deps: IdSet)
      requires Valid()
      ensures deps == ChildDeps(node, readOnly)
      decreases Repr
    {
      hide ChildDeps, ChildrenDeps, LocalDeps;
      deps := GetLocalDeps(readOnly);
      NoChildren(node, readOnly);
      var done: set<Text> := {};
      while sub.Keys - done != {}
        invariant done <= sub.Keys
        invariant deps == LocalDeps(node.sets, readOnly) + ChildrenDeps(node, done, readOnly)
        decreases sub.Keys - done
      {
        var k :| k in sub.Keys - done;
        assert ValidChild(k);
        var below := sub[k].GetChildDeps(readOnly);
        OneMoreChild(node, done, k, readOnly);
        UnionAssoc(LocalDeps(node.sets, readOnly), ChildrenDeps(node, done, readOnly), below);
        deps := deps + below;
        done := done + {k};
      }
      NothingMissing(sub.Keys, done);
      AllChildren(node, readOnly);
    }

    /** dependencyMap.get on the children. */
    method Child(key: Text) returns (child: Dependencies)
      requires Valid()
      modifies this
      ensures Valid() && fresh(Repr - old(Repr)) && key in sub && child == sub[key]
      ensures node == old(node).(sub := old(node).sub[key := Get(old(node).sub, key)])
    {
      if key !in sub {
        child := new Dependencies();
        sub := sub[key := child];
        Repr := Repr + child.Repr;
        node := node.(sub := node.sub[key := NEW_NODE]);
      }
      child := sub[key];
    }

    /** Updating one child leaves this object and the other children as they were. */
    twostate lemma OthersKept(key: Text)
      requires old(Valid()) && key in old(sub) && unchanged(this)
      requires forall o :: o in old(Repr) && o !in old(sub[key].Repr) ==> unchanged(o)
      requires sub[key].Valid() && fresh(sub[key].Repr - old(sub[key].Repr))
      ensures this in Repr && node.sets == OwnSets() && node.sub.Keys == sub.Keys && this !in sub[key].Repr
      ensures forall k :: k in sub && k != key ==> ValidChild(k) && sub[k].Repr !! sub[key].Repr
      ensures forall k, j :: k in sub && j in sub && k != j && k != key && j != key ==> sub[k].Repr !! sub[j].Repr
    {
      assert old(ValidChild(key));
      forall k | k in sub && k != key
        ensures ValidChild(k) && sub[k].Repr == old(sub[k].Repr) && sub[k].Repr !! sub[key].Repr
      {
        assert old(ValidChild(k)) && old(sub[k]) in old(sub[k].Repr);
        assert unchanged(sub[k]);
        assert forall o :: o in sub[k].Repr ==> unchanged(o);
      }
    }

    /** Brings the ghost state up to date with a changed child. */
    ghost method Adopt(key: Text)
      requires this in Repr && node.sets == OwnSets() && node.sub.Keys == sub.Keys && key in sub
      requires sub[key].Valid() && this !in sub[key].Repr
      requires forall k :: k in sub && k != key ==> ValidChild(k) && sub[k].Repr !! sub[key].Repr
      requires forall k, j :: k in sub && j in sub && k != j && k != key && j != key ==> sub[k].Repr !! sub[j].Repr
      modifies this`Repr, this`node
      ensures Valid() && Repr == old(Repr) + sub[key].Repr
      ensures node == old(node).(sub := old(node).sub[key := sub[key].node])
    {
      Repr := Repr + sub[key].Repr;
      node := node.(sub := node.sub[key := sub[key].node]);
      forall k | k in sub ensures ValidChild(k) {
        assert k != key ==> old(ValidChild(k));
      }
    }

    method AcknowledgeHere(id: InstanceID, deps: IdSet)
      requires Valid()
      modifies this`acknowledged, this`node
      ensures Valid() && node == old(node).(sets := Acknowledge(old(node).sets, id, deps))
    {
      var containsInstance := id in acknowledged;
      acknowledged := acknowledged + deps;
      if !containsInstance {
        acknowledged := acknowledged - {id};
      }
      node := node.(sets := OwnSets());
      assert forall k :: k in sub ==> old(ValidChild(k));
    }

    method ReportAcknowledged(keys: Path, id: InstanceID, deps: IdSet)
      requires Valid() && |keys| > 0
      modifies Repr
      ensures Valid() && fresh(Repr - old(Repr))
      ensures node == DependencyTrie.ReportAcknowledged(old(node), keys, id, deps)
      decreases |keys|
    {
      hide Acknowledge;
      if |keys| == 1 {
        AcknowledgeHere(id, deps);
      } else {
        AcknowledgeBelow(keys, id, deps);
      }
    }

    method AcknowledgeBelow(keys: Path, id: InstanceID, deps: IdSet)
      requires Valid() && |keys| > 1
      modifies Repr
      ensures Valid() && fresh(Repr - old(Repr))
      ensures node == old(node).(sub := old(node).sub[keys[1] :=
                DependencyTrie.ReportAcknowledged(Get(old(node).sub, keys[1]), keys[1..], id, deps)])
      decreases |keys|, 0
    {
      hide DependencyTrie.ReportAcknowledged;
      var child := Child(keys[1]);
      label before:
      assert ValidChild(keys[1]);
      child.ReportAcknowledged(keys[1..], id, deps);
      OthersKept@before(keys[1]);
      UpdateTwice(old(node).sub, keys[1], Get(old(node).sub, keys[1]), child.node);
      Adopt(keys[1]);
    }

    method RegisterHere(id: InstanceID, readOnly: bool)
      requires Valid()
      modifies this`writeIds, this`readIds, this`node
      ensures Valid() && node == old(node).(sets := Register(old(node).sets, id, readOnly))
    {
      if readOnly {
        readIds := readIds + {id};
      } else {
        writeIds := writeIds + {id};
      }
      node := node.(sets := OwnSets());
      assert forall k :: k in sub ==> old(ValidChild(k));
    }

    /** Removes what has been both executed and acknowledged. */
    method PruneHere()
      requires Valid()
      modifies this`writeIds, this`readIds, this`executed, this`acknowledged, this`node
      ensures Valid() && node == old(node).(sets := Prune(old(node).sets))
    {
      var exAcked := executed * acknowledged;
      readIds := readIds - exAcked;
      writeIds := writeIds - exAcked;
      executed := executed - exAcked;
      acknowledged := acknowledged - exAcked;
      node := node.(sets := OwnSets());
      assert forall k :: k in sub ==> old(ValidChild(k));
    }

    method MarkExecutedHere(id: InstanceID)
      requires Valid()
      modifies this`executed, this`node
      ensures Valid() && node == old(node).(sets := MarkExecuted(old(node).sets, id))
    {
      executed := executed + {id};
      node := node.(sets := OwnSets());
      assert forall k :: k in sub ==> old(ValidChild(k));
    }

    method GetAndSetDeps(keys: Path, id: InstanceID, readOnly: bool) returns (deps: IdSet)
      requires Valid() && |keys| > 0
      modifies Repr
      ensures Valid() && fresh(Repr - old(Repr))
      ensures node == SetDeps(old(node), keys, id, readOnly)
      ensures deps == GetDeps(old(node), keys, id, readOnly)
      decreases |keys|
    {
      hide LocalDeps, ChildDeps, Register, Prune;
      if |keys| == 1 {
        deps := GetChildDeps(readOnly);
        RegisterHere(id, readOnly);
        PruneHere();
      } else {
        deps := GetLocalDeps(readOnly);
        var below := GetAndSetBelow(keys, id, readOnly);
        deps := deps + below;
      }
      deps := deps - {id};
    }

    method GetAndSetBelow(keys: Path, id: InstanceID, readOnly: bool) returns (deps: IdSet)
      requires Valid() && |keys| > 1
      modifies Repr
      ensures Valid() && fresh(Repr - old(Repr))
      ensures node == old(node).(sub := old(node).sub[keys[1] :=
                SetDeps(Get(old(node).sub, keys[1]), keys[1..], id, readOnly)])
      ensures deps == GetDeps(Get(old(node).sub, keys[1]), keys[1..], id, readOnly)
      decreases |keys|, 0
    {
      hide SetDeps, GetDeps;
      var child := Child(keys[1]);
      label before:
      assert ValidChild(keys[1]);
      deps := child.GetAndSetDeps(keys[1..], id, readOnly);
      OthersKept@before(keys[1]);
      UpdateTwice(old(node).sub, keys[1], Get(old(node).sub, keys[1]), child.node);
      Adopt(keys[1]);
    }

    method ReportExecuted(keys: Path, id: InstanceID, deps: IdSet)
      requires Valid() && |keys| > 0
      modifies Repr
      ensures Valid() && fresh(Repr - old(Repr))
      ensures node == DependencyTrie.ReportExecuted(old(node), keys, id, deps)
    {
      hide MarkExecuted, DependencyTrie.ReportAcknowledged;
      if |keys| == 1 {
        MarkExecutedHere(id);
      } else {
        AcknowledgeBelow(keys, id, deps);
      }
    }

    method AddDependency(keys: Path, id: InstanceID, readOnly: bool, deps: IdSet)
      requires Valid() && |keys| > 0
      modifies Repr
      ensures Valid() && fresh(Repr - old(Repr))
      ensures node == DependencyTrie.AddDependency(old(node), keys, id, readOnly, deps)
    {
      hide Register, DependencyTrie.ReportAcknowledged;
      if |keys| == 1 {
        RegisterHere(id, readOnly);
      } else {
        AcknowledgeBelow(keys, id, deps);
      }
    }

    method Dispatch(c: Call) returns (deps: IdSet)
      requires Valid() && c.keys != []
      modifies Repr
      ensures Valid() && fresh(Repr - old(Repr))
      ensures node == NodeAfter(old(node), c)
      ensures deps == if c.GetAndSetDeps? then GetDeps(old(node), c.keys, c.id, c.readOnly) else {}
    {
      hide SetDeps, GetDeps, DependencyTrie.ReportAcknowledged, DependencyTrie.ReportExecuted, DependencyTrie.AddDependency;
      deps := {};
      match c
      case GetAndSetDeps(keys, id, readOnly) => deps := this.GetAndSetDeps(keys, id, readOnly);
      case Acknowledged(keys, id, ds) => ReportAcknowledged(keys, id, ds);
      case Executed(keys, id, ds) => ReportExecuted(keys, id, ds);
      case Added(keys, id, readOnly, ds) => AddDependency(keys, id, readOnly, ds);
    }

    method DispatchToChild(key: Text, c: Call) returns (deps: IdSet)
      requires Valid() && c.keys != []
      modifies Repr
      ensures Valid() && fresh(Repr - old(Repr))
      ensures node == old(node).(sub := old(node).sub[key := NodeAfter(Get(old(node).sub, key), c)])
      ensures deps == if c.GetAndSetDeps? then GetDeps(Get(old(node).sub, key), c.keys, c.id, c.readOnly) else {}
    {
      hide NodeAfter, GetDeps;
      var child := Child(key);
      label before:
      assert ValidChild(key);
      deps := child.Dispatch(c);
      OthersKept@before(key);
      UpdateTwice(old(node).sub, key, Get(old(node).sub, key), child.node);
      Adopt(key);
    }
  }

  /** The root of the tree: only the children of root are used. */
  class DependencyManager {
    const root: Dependencies

    constructor ()
      ensures root.Valid() && fresh(root.Repr) && root.node.sub == map[]
    {
      root := new Dependencies();
    }

    /** Carries out a call; a call that names no key is an error. */
    method Call(c: Call) returns (ok: bool, deps: IdSet)
      requires root.Valid()
      modifies root.Repr
      ensures root.Valid() && fresh(root.Repr - old(root.Repr))
      ensures ok <==> c.keys != []
      ensures root.node.sub == Perform(old(root.node).sub, c)
      ensures deps == Returned(old(root.node).sub, c)
    {
      hide NodeAfter, GetDeps;
      if c.keys == [] {
        return false, {};
      }
      deps := root.DispatchToChild(c.keys[0], c);
      ok := true;
    }
  }

  lemma UpdateTwice(f: Forest, key: Text, a: Node, b: Node)
    ensures f[key := a][key := b] == f[key := b]
  {
  }

  lemma NothingMissing(a: set<Text>, b: set<Text>)
    requires a - b == {} && b <= a
    ensures a == b
  {
    forall k | k in a ensures k in b {
      assert k !in a - b;
    }
  }

  lemma UnionAssoc(a: IdSet, b: IdSet, c: IdSet)
    ensures (a + b) + c == a + (b + c)
  {
  }

  /** What the children with the given keys contribute to ChildDeps. */
  ghost function ChildrenDeps(n: Node, ks: set<Text>, readOnly: bool): IdSet {
    set k, x | k in ks && k in n.sub && x in ChildDeps(n.sub[k], readOnly) :: x
  }

  lemma NoChildren(n: Node, readOnly: bool)
    ensures ChildrenDeps(n, {}, readOnly) == {}
  {
  }

  lemma OneMoreChild(n: Node, ks: set<Text>, k: Text, readOnly: bool)
    requires k in n.sub
    ensures ChildrenDeps(n, ks + {k}, readOnly) == ChildrenDeps(n, ks, readOnly) + ChildDeps(n.sub[k], readOnly)
  {
    hide ChildDeps;
  }

  lemma AllChildren(n: Node, readOnly: bool)
    ensures ChildDeps(n, readOnly) == LocalDeps(n.sets, readOnly) + ChildrenDeps(n, n.sub.Keys, readOnly)
  {
  }
}
