/** The nodes of a graph in file order, and the dictionaries of their names. */
module GraphNodes {
  import opened Wrappers
  import opened ByteStrings
  import opened Varint
  import opened Entity
  import opened Sorting
  import opened MergeSort
  import opened Interning
  import opened Snapshot

  datatype TargetGraph = TargetGraph(targets: seq<OptimizedTarget>, metadata: Metadata)

  /** One node: its label, the label split, and which target it is. */
  datatype NodeInfo = NodeInfo(name: Text, key: Key, origIdx: nat, origID: int32)

  /** Every target has a label. */
  predicate AllNamed(g: TargetGraph) {
    forall t | t in g.targets :: t.id in g.metadata.targetNames
  }

  function InfoOf(g: TargetGraph, i: nat): NodeInfo
    requires i < |g.targets| && g.targets[i].id in g.metadata.targetNames
  {
    var name := g.metadata.targetNames[g.targets[i].id];
    NodeInfo(name, SplitLabel(name), i, g.targets[i].id)
  }

  function Infos(g: TargetGraph): (infos: seq<NodeInfo>)
    requires AllNamed(g)
    ensures |infos| == |g.targets|
  {
    seq(|g.targets|, i requires 0 <= i < |g.targets| => (assert g.targets[i] in g.targets; InfoOf(g, i)))
  }

  predicate ByKey(a: NodeInfo, b: NodeInfo) {
    !KeyLess(b.key, a.key)
  }

  lemma ByKeyIsPreorder()
    ensures TotalPreorder(ByKey)
  {
    forall a, b ensures ByKey(a, b) || ByKey(b, a) {
      if KeyLess(a.key, b.key) && KeyLess(b.key, a.key) {
        KeyLessTransitive(a.key, b.key, a.key);
        KeyLessIrreflexive(a.key);
      }
    }
    forall a, b, c | ByKey(a, b) && ByKey(b, c) ensures ByKey(a, c) {
      if KeyLess(c.key, a.key) {
        KeyLessTotal(a.key, b.key);
        if KeyLess(a.key, b.key) {
          KeyLessTransitive(c.key, a.key, b.key);
        }
      }
    }
  }

  /** The targets of the graph, each once, in the order of their split labels. */
  ghost predicate IsNodes(g: TargetGraph, nodes: seq<NodeInfo>) {
    AllNamed(g) && multiset(nodes) == multiset(Infos(g)) && Sorted(ByKey, nodes)
  }

  method BuildNodes(g: TargetGraph, depth: nat) returns (nodes: Option<seq<NodeInfo>>)
    ensures nodes.Some? <==> AllNamed(g)
    ensures nodes.Some? ==> IsNodes(g, nodes.value)
  {
    ByKeyIsPreorder();
    var infos := new NodeInfo[|g.targets|];
    for i := 0 to |g.targets|
      invariant forall k | 0 <= k < i :: g.targets[k].id in g.metadata.targetNames && infos[k] == InfoOf(g, k)
    {
      if g.targets[i].id !in g.metadata.targetNames {
        assert g.targets[i] in g.targets;
        return None;
      }
      infos[i] := InfoOf(g, i);
    }
    assert infos[..] == Infos(g);
    ParallelSortFunc(infos, ByKey, depth);
    nodes := Some(infos[..]);
  }

  /** Every node is its target's, and no target is left out or listed twice. */
  lemma NodesAreTargets(g: TargetGraph, nodes: seq<NodeInfo>)
    requires IsNodes(g, nodes)
    ensures |nodes| == |g.targets|
    ensures forall i | 0 <= i < |nodes| ::
        nodes[i].origIdx < |g.targets| && g.targets[nodes[i].origIdx].id in g.metadata.targetNames
    ensures forall i | 0 <= i < |nodes| :: nodes[i] == InfoOf(g, nodes[i].origIdx)
    ensures forall i, j | 0 <= i < j < |nodes| :: nodes[i].origIdx != nodes[j].origIdx
  {
    var infos := Infos(g);
    SameElements(nodes, infos);
    forall i | 0 <= i < |nodes| ensures nodes[i].origIdx < |g.targets| && nodes[i] == infos[nodes[i].origIdx] {
      assert nodes[i] in infos;
      var k :| 0 <= k < |infos| && infos[k] == nodes[i];
    }
    assert NoDuplicates(infos);
    SortingKeepsDistinct(infos, nodes);
    forall i, j | 0 <= i < j < |nodes| ensures nodes[i].origIdx != nodes[j].origIdx {
      assert nodes[i] != nodes[j];
    }
    forall i | 0 <= i < |nodes| ensures g.targets[nodes[i].origIdx].id in g.metadata.targetNames {
      assert g.targets[nodes[i].origIdx] in g.targets;
    }
  }

  // ---- Dictionaries ----

  function Pkgs(nodes: seq<NodeInfo>): seq<Text> {
    seq(|nodes|, i requires 0 <= i < |nodes| => nodes[i].key.pkg)
  }

  function Names(nodes: seq<NodeInfo>): seq<Text> {
    seq(|nodes|, i requires 0 <= i < |nodes| => nodes[i].key.name)
  }

  function NodeLabels(nodes: seq<NodeInfo>): seq<Text> {
    seq(|nodes|, i requires 0 <= i < |nodes| => nodes[i].name)
  }

  lemma NextPackage(nodes: seq<NodeInfo>, i: nat)
    requires Sorted(ByKey, nodes) && 0 < i < |nodes| && nodes[i].key.pkg != nodes[i - 1].key.pkg
    ensures Less(nodes[i - 1].key.pkg, nodes[i].key.pkg)
  {
    assert ByKey(nodes[i - 1], nodes[i]);
    LessTotal(nodes[i - 1].key.pkg, nodes[i].key.pkg);
  }

  /** Packages come in runs: a run's number is how many came before it. */
  method BuildPkgDict(nodes: seq<NodeInfo>) returns (pkgDict: seq<Text>, pkgIDs: seq<int32>)
    requires Sorted(ByKey, nodes) && |nodes| < TWO_31
    ensures IsDict(pkgDict, set p | p in Pkgs(nodes))
    ensures |pkgIDs| == |nodes|
    ensures forall i | 0 <= i < |nodes| :: 0 <= pkgIDs[i] < |pkgDict| && pkgDict[pkgIDs[i]] == nodes[i].key.pkg
  {
    pkgDict, pkgIDs := [], [];
    var prevPkg: Text := [];
    var curPkgID: int32 := -1;
    for i := 0 to |nodes|
      invariant |pkgIDs| == i && curPkgID == |pkgDict| - 1 && |pkgDict| <= i
      invariant if i == 0 then pkgDict == [] else pkgDict != [] && pkgDict[curPkgID] == prevPkg == nodes[i - 1].key.pkg
      invariant forall x, y | 0 <= x < y < |pkgDict| :: Less(pkgDict[x], pkgDict[y])
      invariant forall k | 0 <= k < i :: 0 <= pkgIDs[k] < |pkgDict| && pkgDict[pkgIDs[k]] == nodes[k].key.pkg
      invariant forall p | p in pkgDict :: p in Pkgs(nodes)
    {
      if i == 0 || nodes[i].key.pkg != prevPkg {
        if i > 0 {
          NextPackage(nodes, i);
          forall x | 0 <= x < |pkgDict| ensures Less(pkgDict[x], nodes[i].key.pkg) {
            if x < |pkgDict| - 1 {
              LessTransitive(pkgDict[x], prevPkg, nodes[i].key.pkg);
            }
          }
        }
        assert Pkgs(nodes)[i] == nodes[i].key.pkg;
        pkgDict := pkgDict + [nodes[i].key.pkg];
        prevPkg := nodes[i].key.pkg;
        curPkgID := curPkgID + 1;
      }
      pkgIDs := pkgIDs + [curPkgID];
    }
    forall p | p in Pkgs(nodes) ensures p in pkgDict {
      var k :| 0 <= k < |nodes| && Pkgs(nodes)[k] == p;
      assert pkgDict[pkgIDs[k]] == p;
    }
  }

  /** All names sorted, then each kept once. */
  method BuildNameDict(nodes: seq<NodeInfo>, depth: nat) returns (nameDict: seq<Text>)
    ensures IsDict(nameDict, set s | s in Names(nodes))
  {
    var names := new Text[|nodes|];
    for i := 0 to |nodes|
      invariant forall k | 0 <= k < i :: names[k] == nodes[k].key.name
    {
      names[i] := nodes[i].key.name;
    }
    assert names[..] == Names(nodes);
    LessEqIsTotalOrder();
    ParallelSortFunc(names, (a, b) => LessEq(a, b), depth);
    SameElements(names[..], Names(nodes));
    nameDict := Compact(names[..]);
    assert (set s | s in names[..]) == (set s | s in Names(nodes));
  }
}
