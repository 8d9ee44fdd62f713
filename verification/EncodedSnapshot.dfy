/** Encoded graphs are what the comparison assumes of its inputs. */
module EncodedSnapshot {
  import opened Wrappers
  import opened ByteStrings
  import opened Varint
  import opened Bits
  import opened Sorting
  import opened FlagColumn
  import opened Snapshot
  import opened TargetDiff
  import opened Entity
  import opened GraphNodes
  import opened GraphColumns
  import opened GraphEncode
  import opened GraphRoundTrip
  import opened DigestAlign
  import GraphDecode
  import GraphRows
  import Interning
  import H = HashColumn
  import B = Blocks

  /** Names to values, of two with one name the later. */
  function TextAttrs(c: Columns, names: seq<int32>, values: seq<int32>): map<Text, Text>
    requires |names| == |values|
  {
    if names == [] then map[] else
      var n := |names| - 1;
      TextAttrs(c, names[..n], values[..n])[GraphRows.TextAt(c.attrNameDict, names[n]) :=
          GraphRows.TextAt(c.attrValueDict, values[n])]
  }

  function KeyAt(c: Columns, i: nat): Key
    requires Rectangular(c) && i < c.NodeCount()
  {
    Key(GraphRows.TextAt(c.pkgDict, c.pkgIDs[i]), GraphRows.TextAt(c.nameDict, c.nameIDs[i]))
  }

  /** What the comparison reads of the columns. */
  function SnapshotOf(c: Columns): (r: Snapshot)
    requires Rectangular(c)
    ensures r.NodeCount() == c.NodeCount()
  {
    var n, f := c.NodeCount(), DecodeFlags(FlagBytes(c), c.NodeCount());
    Snapshot(
      seq(n, i requires 0 <= i < n => KeyAt(c, i)), c.stride, c.hashes, f.hashEmpty,
      c.ruleTypeDict, c.ruleTypeIDs, c.deps,
      seq(n, i requires 0 <= i < n => GraphRows.TextsAt(c.tagDict, c.tags[i])),
      seq(n, i requires 0 <= i < n => TextAttrs(c, c.attrNames[i], c.attrValues[i])),
      seq(n, i requires 0 <= i < n => Up(f.root, i)), seq(n, i requires 0 <= i < n => Up(f.external, i)),
      c.blockStarts, c.blockDigests)
  }

  // ---- Well-formedness ----

  lemma KeysAreNodes(hash: B.Hash, g: TargetGraph, nodes: seq<NodeInfo>, c: Columns)
    requires Encodes(hash, g, nodes, c)
    ensures Rectangular(c) && c.NodeCount() == |nodes|
    ensures forall i | 0 <= i < |nodes| :: SnapshotOf(c).keys[i] == nodes[i].key == SplitLabel(nodes[i].name)
  {
    hide HashesHold, BlocksHold, DictsHold, IsNodes, NodeHolds, FlagBytes, DecodeFlags, Up, TextAttrs;
    NodesAreTargets(g, nodes);
    forall i | 0 <= i < |nodes| ensures KeyAt(c, i) == nodes[i].key == SplitLabel(nodes[i].name) {
      assert nodes[i] == InfoOf(g, nodes[i].origIdx);
      NameHolds(g, nodes, c, i);
      PkgHolds(g, nodes, c, i);
    }
  }

  lemma PkgHolds(g: TargetGraph, nodes: seq<NodeInfo>, c: Columns, i: nat)
    requires Rectangular(c) && i < c.NodeCount() == |nodes| && nodes[i].origIdx < |g.targets|
    requires NodeHolds(g, nodes, c, i)
    ensures 0 <= c.pkgIDs[i] < |c.pkgDict| && c.pkgDict[c.pkgIDs[i]] == nodes[i].key.pkg
  {
    hide GraphRows.RowHolds, Rectangular;
  }

  /** No two labels split alike, and none vanishes when joined again. */
  predicate LabelsApart(nodes: seq<NodeInfo>) {
    && (forall i, j | 0 <= i < j < |nodes| :: nodes[i].key != nodes[j].key)
    && forall i | 0 <= i < |nodes| :: Canonical(nodes[i].name) != []
  }

  lemma KeysWellFormed(hash: B.Hash, g: TargetGraph, nodes: seq<NodeInfo>, c: Columns)
    requires Encodes(hash, g, nodes, c)
    ensures Rectangular(c)
    ensures var r := SnapshotOf(c);
      LabelsApart(nodes) <==>
      Ascending(r.keys) && forall i | 0 <= i < r.NodeCount() :: COLON !in r.keys[i].name && JoinLabel(r.keys[i]) != []
  {
    hide Encodes, SnapshotOf, Rectangular, KeyLess;
    KeysAreNodes(hash, g, nodes, c);
    SortedNodes(hash, g, nodes, c);
    var keys := SnapshotOf(c).keys;
    forall i, j | 0 <= i < j < |nodes| ensures KeyLess(keys[i], keys[j]) <==> nodes[i].key != nodes[j].key {
      assert ByKey(nodes[i], nodes[j]);
      KeyLessTotal(keys[i], keys[j]);
      KeyLessIrreflexive(keys[i]);
    }
    forall i | 0 <= i < |nodes| ensures COLON !in keys[i].name {
      assert keys[i] == SplitLabel(nodes[i].name);
    }
  }

  lemma SortedNodes(hash: B.Hash, g: TargetGraph, nodes: seq<NodeInfo>, c: Columns)
    requires Encodes(hash, g, nodes, c)
    ensures Sorted(ByKey, nodes)
  {
  }

  /** A node with the empty-hash mark stores zero bytes. */
  lemma EmptyHashesAreZero(hash: B.Hash, g: TargetGraph, nodes: seq<NodeInfo>, c: Columns, i: nat)
    requires Encodes(hash, g, nodes, c) && i < |nodes|
    ensures Rectangular(c) && |c.hashes| == c.NodeCount() * c.stride && c.NodeCount() == |nodes|
    ensures SnapshotOf(c).HashEmpty(i) ==> forall x | x in SnapshotOf(c).Stride(i) :: x == 0
  {
    hide DecodeFlags, FlagBytes, H.Accepted, H.Column, DictsHold, BlocksHold, IsNodes, NodeHolds, KeyAt, TextAttrs,
      Member;
    RowParts(hash, g, nodes, c, i);
    FlagsDecode(g, nodes, c, i);
    H.ColumnAt(HashesOf(g, nodes), c.stride, i);
    assert HashesOf(g, nodes)[i] == g.targets[nodes[i].origIdx].hash;
    H.HowAccepted(HashesOf(g, nodes)[i], c.stride);
  }

  lemma RowsWellFormed(hash: B.Hash, g: TargetGraph, nodes: seq<NodeInfo>, c: Columns)
    requires Encodes(hash, g, nodes, c)
    ensures Rectangular(c) && c.NodeCount() == |nodes| && |c.ruleTypeIDs| == |c.deps| == |nodes|
    ensures forall i | 0 <= i < |nodes| :: 0 <= c.ruleTypeIDs[i] < |c.ruleTypeDict|
    ensures forall i | 0 <= i < |nodes| :: forall d | d in c.deps[i] :: 0 <= d < |nodes|
    ensures NoDuplicates(c.ruleTypeDict)
  {
    hide DictsHold, HashesHold, BlocksHold, IsNodes, NodeHolds, GraphRows.TagsHold, GraphRows.AttrsHold;
    forall i | 0 <= i < |nodes|
      ensures 0 <= c.ruleTypeIDs[i] < |c.ruleTypeDict| && forall d | d in c.deps[i] :: 0 <= d < |nodes|
    {
      RowParts(hash, g, nodes, c, i);
    }
    RuleTypesDistinct(hash, g, nodes, c);
  }

  lemma RuleTypesDistinct(hash: B.Hash, g: TargetGraph, nodes: seq<NodeInfo>, c: Columns)
    requires Encodes(hash, g, nodes, c)
    ensures NoDuplicates(c.ruleTypeDict)
  {
    hide HashesHold, BlocksHold, IsNodes, NodeHolds, Interning.IsDict;
    Interning.DictDistinct(c.ruleTypeDict, g.metadata.ruleTypes.Values);
  }

  lemma BlocksWellFormed(hash: B.Hash, g: TargetGraph, nodes: seq<NodeInfo>, c: Columns)
    requires Encodes(hash, g, nodes, c)
    ensures c.blockSize > 0 && |c.blockStarts| == |c.blockDigests| && PartitionStarts(c.blockStarts, |nodes|)
    ensures c.blockStarts == B.Starts(hash, c.blockSize, NodeLabels(nodes), 0)
    ensures c.blockStarts == [] <==> nodes == []
  {
    hide HashesHold, DictsHold, IsNodes, NodeHolds, B.Starts, B.Digests;
    var starts := B.Starts(hash, c.blockSize, NodeLabels(nodes), 0);
    B.BlocksAreStarts(hash, c.blockSize, NodeLabels(nodes));
    B.BlocksPartition(hash, c.blockSize, NodeLabels(nodes), 0);
    assert Numbers(starts) == starts;
  }

  lemma SnapshotFields(c: Columns)
    requires Rectangular(c)
    ensures var r, n := SnapshotOf(c), c.NodeCount();
      && r.stride == c.stride > 0 && r.hashes == c.hashes && |r.hashes| == n * r.stride && |r.keys| == n
      && r.ruleTypeDict == c.ruleTypeDict && r.ruleTypeIDs == c.ruleTypeIDs && r.deps == c.deps
      && |r.tags| == |r.attrs| == |r.roots| == |r.externals| == n
      && r.blockStarts == c.blockStarts && r.blockDigests == c.blockDigests
  {
    hide DecodeFlags, FlagBytes, KeyAt, TextAttrs, Up, ShortLists, ShortTexts, GraphRows.TextsAt;
  }

  /** The comparison's assumptions hold exactly of the graphs whose labels stay
      apart: everything else the encoder sees to. */
  lemma EncodedIsWellFormed(hash: B.Hash, g: TargetGraph, nodes: seq<NodeInfo>, c: Columns)
    requires Encodes(hash, g, nodes, c)
    ensures Rectangular(c) && (SnapshotOf(c).WellFormed() <==> LabelsApart(nodes))
  {
    hide Encodes, LabelsApart, SnapshotOf, Rectangular, Ascending, JoinLabel, PartitionStarts, B.Starts;
    KeysWellFormed(hash, g, nodes, c);
    RowsWellFormed(hash, g, nodes, c);
    BlocksWellFormed(hash, g, nodes, c);
    SnapshotFields(c);
    forall i | 0 <= i < |nodes| && SnapshotOf(c).HashEmpty(i)
      ensures forall x | x in SnapshotOf(c).Stride(i) :: x == 0
    {
      EmptyHashesAreZero(hash, g, nodes, c, i);
    }
  }

  // ---- Digests ----

  /** The labels of block `k`. */
  ghost function BlockLabels(hash: B.Hash, size: nat, names: seq<Text>, k: nat): seq<Text>
    requires size > 0 && k < |B.Starts(hash, size, names, 0)|
  {
    var starts := B.Starts(hash, size, names, 0);
    B.BlocksPartition(hash, size, names, 0);
    names[starts[k]..B.EndOf(starts, |names|, k)]
  }

  /** The digest tells the blocks of the two graphs apart. */
  ghost predicate DigestsDistinguish(hash: B.Hash, size: nat, names: seq<Text>, size': nat, names': seq<Text>)
    requires size > 0 && size' > 0
  {
    forall i, j | 0 <= i < |B.Starts(hash, size, names, 0)| && 0 <= j < |B.Starts(hash, size', names', 0)| ::
      var b, a := B.Stream(BlockLabels(hash, size, names, i)), B.Stream(BlockLabels(hash, size', names', j));
      hash(b) == hash(a) ==> b == a
  }

  lemma KeysAreSplit(hash: B.Hash, g: TargetGraph, nodes: seq<NodeInfo>, c: Columns)
    requires Encodes(hash, g, nodes, c)
    ensures Rectangular(c) && c.NodeCount() == |nodes| && SnapshotOf(c).keys == Map(SplitLabel, NodeLabels(nodes))
  {
    hide Encodes, SplitLabel, FlagBytes, DecodeFlags, KeyAt, TextAttrs, Up, Rectangular;
    KeysAreNodes(hash, g, nodes, c);
  }

  lemma MapSlice<T, U>(f: T -> U, s: seq<T>, lo: nat, hi: nat)
    requires lo <= hi <= |s|
    ensures Map(f, s)[lo..hi] == Map(f, s[lo..hi])
  {
  }

  lemma BlockKeys(hash: B.Hash, g: TargetGraph, nodes: seq<NodeInfo>, c: Columns, k: nat)
    requires Encodes(hash, g, nodes, c) && k < |c.blockStarts|
    ensures Rectangular(c) && c.blockSize > 0 && |c.blockStarts| == |c.blockDigests|
    ensures PartitionStarts(c.blockStarts, c.NodeCount())
    ensures k < |B.Starts(hash, c.blockSize, NodeLabels(nodes), 0)|
    ensures c.blockDigests[k] == hash(B.Stream(BlockLabels(hash, c.blockSize, NodeLabels(nodes), k)))
    ensures Block(SnapshotOf(c), k) == Map(SplitLabel, BlockLabels(hash, c.blockSize, NodeLabels(nodes), k))
  {
    hide Encodes, B.Starts, B.Digests, B.Stream, Rectangular, FlagBytes, DecodeFlags, KeyAt, TextAttrs, Up, SplitLabel,
      Map, PartitionStarts, NodeLabels;
    KeysAreSplit(hash, g, nodes, c);
    BlocksWellFormed(hash, g, nodes, c);
    DigestsAre(hash, g, nodes, c);
    var names, starts := NodeLabels(nodes), B.Starts(hash, c.blockSize, NodeLabels(nodes), 0);
    B.BlocksPartition(hash, c.blockSize, names, 0);
    LabelCount(nodes);
    MapSlice(SplitLabel, names, starts[k], B.EndOf(starts, |names|, k));
  }

  lemma LabelCount(nodes: seq<NodeInfo>)
    ensures |NodeLabels(nodes)| == |nodes|
  {
  }

  lemma DigestsAre(hash: B.Hash, g: TargetGraph, nodes: seq<NodeInfo>, c: Columns)
    requires Encodes(hash, g, nodes, c)
    ensures c.blockSize > 0 && c.blockDigests == B.Digests(hash, c.blockSize, NodeLabels(nodes), 0)
  {
    hide HashesHold, DictsHold, IsNodes, NodeHolds, B.Starts, B.Digests;
  }

  lemma NulFreeSlice(names: seq<Text>, lo: nat, hi: nat)
    requires B.NulFree(names) && lo <= hi <= |names|
    ensures B.NulFree(names[lo..hi])
  {
  }

  /** Equal digests mean equal runs of labels, for labels without NUL and a
      digest that does not collide on these blocks; and only an empty graph has
      no blocks. */
  lemma EncodedDigestsAreHonest(hash: B.Hash, g: TargetGraph, nodes: seq<NodeInfo>, c: Columns, g': TargetGraph,
                                nodes': seq<NodeInfo>, c': Columns)
    requires Encodes(hash, g, nodes, c) && Encodes(hash, g', nodes', c') && c.blockSize > 0 && c'.blockSize > 0
    requires B.NulFree(NodeLabels(nodes)) && B.NulFree(NodeLabels(nodes'))
    requires DigestsDistinguish(hash, c.blockSize, NodeLabels(nodes), c'.blockSize, NodeLabels(nodes'))
    ensures Rectangular(c) && |c.blockStarts| == |c.blockDigests| && PartitionStarts(c.blockStarts, c.NodeCount())
    ensures Rectangular(c') && |c'.blockStarts| == |c'.blockDigests| && PartitionStarts(c'.blockStarts, c'.NodeCount())
    ensures DigestsHonest(SnapshotOf(c), SnapshotOf(c')) && BlocksAgree(SnapshotOf(c), SnapshotOf(c'))
  {
    BlocksWellFormed(hash, g, nodes, c);
    BlocksWellFormed(hash, g', nodes', c');
    KeysAreNodes(hash, g, nodes, c);
    KeysAreNodes(hash, g', nodes', c');
    hide Encodes, B.Starts, B.Digests, B.Stream, BlockLabels, Rectangular, FlagBytes, DecodeFlags, KeyAt, TextAttrs, Up,
      SplitLabel, Block;
    var b, a := SnapshotOf(c), SnapshotOf(c');
    forall i, j | 0 <= i < |b.blockStarts| && 0 <= j < |a.blockStarts| && b.blockDigests[i] == a.blockDigests[j]
      ensures Block(b, i) == Block(a, j)
    {
      BlockKeys(hash, g, nodes, c, i);
      BlockKeys(hash, g', nodes', c', j);
      var xs, ys := BlockLabels(hash, c.blockSize, NodeLabels(nodes), i),
          BlockLabels(hash, c'.blockSize, NodeLabels(nodes'), j);
      BlockIsNulFree(hash, c.blockSize, NodeLabels(nodes), i);
      BlockIsNulFree(hash, c'.blockSize, NodeLabels(nodes'), j);
      B.StreamsDiffer(xs, ys);
    }
  }

  lemma BlockIsNulFree(hash: B.Hash, size: nat, names: seq<Text>, k: nat)
    requires size > 0 && k < |B.Starts(hash, size, names, 0)| && B.NulFree(names)
    ensures B.NulFree(BlockLabels(hash, size, names, k))
  {
    hide B.Starts, B.Stream;
    var starts := B.Starts(hash, size, names, 0);
    B.BlocksPartition(hash, size, names, 0);
    NulFreeSlice(names, starts[k], B.EndOf(starts, |names|, k));
  }

  // ---- The targets the comparison sees ----

  /** What the comparison materialises of a node is the encoded target: all
      there is to it but for tags without a text, which it drops. */
  lemma MaterialisedIsEncoded(hash: B.Hash, g: TargetGraph, nodes: seq<NodeInfo>, c: Columns, i: nat)
    requires Encodes(hash, g, nodes, c) && i < |nodes| && LabelsApart(nodes)
    ensures Rectangular(c) && SnapshotOf(c).WellFormed() && i < SnapshotOf(c).NodeCount()
    ensures nodes[i].origIdx < |g.targets|
    ensures var t, m := g.targets[nodes[i].origIdx], MaterializeTarget(SnapshotOf(c), i, None);
      && m.name == Canonical(nodes[i].name) && m.hash == H.Kept(t.hash, c.stride)
      && m.ruleType == GraphRows.TextOf(g.metadata.ruleTypes, t.ruleType)
      && multiset(m.dependencies) == multiset(Map(Canonical, GraphRows.TextsOf(g.metadata.targetNames, t.deps)))
      && multiset(m.tags) == multiset(Named(GraphRows.TextsOf(g.metadata.tags, t.tags)))
      && SameAttrs(GraphRows.AttrPairs(g.metadata, t), m.attributes.Items)
      && (m.root <==> t.root) && (m.external <==> t.external)
  {
    hide Encodes, NodeHolds, LabelsApart, DecodeFlags, FlagBytes, KeyAt, TextAttrs, Up, Rectangular, GraphRows.DepsHold,
      GraphRows.AttrsHold, H.Kept,
      GraphRows.TextsOf, SplitLabel, SnapshotOf, SameAttrs, GraphRows.AttrPairs, Map, Named;
    EncodedIsWellFormed(hash, g, nodes, c);
    RowParts(hash, g, nodes, c, i);
    NodeRead(hash, g, nodes, c, i);
    HashIsKept(hash, g, nodes, c, i);
    DependenciesRead(hash, g, nodes, c, i);
    TagsRead(g.metadata, c, g.targets[nodes[i].origIdx], c.tags[i]);
    AttrsRead(g.metadata, c, g.targets[nodes[i].origIdx], c.attrNames[i], c.attrValues[i]);
  }

  lemma NodeRead(hash: B.Hash, g: TargetGraph, nodes: seq<NodeInfo>, c: Columns, i: nat)
    requires Encodes(hash, g, nodes, c) && i < |nodes| && Rectangular(c) && SnapshotOf(c).WellFormed()
    requires nodes[i].origIdx < |g.targets|
    ensures i < |c.deps| && i < |c.tags| && i < |c.attrNames| && i < |c.attrValues|
    ensures |c.attrNames[i]| == |c.attrValues[i]|
    ensures i < SnapshotOf(c).NodeCount()
    ensures var t, r := g.targets[nodes[i].origIdx], SnapshotOf(c);
      && r.Label(i) == Canonical(nodes[i].name) && r.RuleType(i) == GraphRows.TextOf(g.metadata.ruleTypes, t.ruleType)
      && r.deps[i] == c.deps[i] && r.tags[i] == GraphRows.TextsAt(c.tagDict, c.tags[i])
      && r.attrs[i] == TextAttrs(c, c.attrNames[i], c.attrValues[i])
      && (r.roots[i] <==> t.root) && (r.externals[i] <==> t.external)
  {
    hide Encodes, NodeHolds, DecodeFlags, FlagBytes, KeyAt, TextAttrs, Up, GraphRows.DepsHold, GraphRows.AttrsHold,
      GraphRows.TextsAt, ShortTexts;
    RowParts(hash, g, nodes, c, i);
    KeysAreNodes(hash, g, nodes, c);
    FlagsDecode(g, nodes, c, i);
  }

  lemma DependenciesRead(hash: B.Hash, g: TargetGraph, nodes: seq<NodeInfo>, c: Columns, i: nat)
    requires Encodes(hash, g, nodes, c) && i < |nodes| && Rectangular(c) && SnapshotOf(c).WellFormed()
    requires nodes[i].origIdx < |g.targets|
    requires i < SnapshotOf(c).NodeCount()
    ensures multiset(MaterializeTarget(SnapshotOf(c), i, None).dependencies) ==
            multiset(Map(Canonical, GraphRows.TextsOf(g.metadata.targetNames, g.targets[nodes[i].origIdx].deps)))
  {
    hide Encodes, NodeHolds, KeyAt, TextAttrs, Up, Rectangular, SnapshotOf, GraphDecode.Numbered, Canonical,
      GraphRows.TextsOf, Named,
      GraphRows.OrigIDs, GraphRows.TagsHold, GraphRows.AttrsHold;
    RowParts(hash, g, nodes, c, i);
    DictsAreShort(hash, g, nodes, c);
    HashesAreHeld(hash, g, nodes, c);
    NodeRead(hash, g, nodes, c, i);
    var labels, deps := Map(Canonical, NodeLabels(nodes)), c.deps[i];
    var m := MaterializeTarget(SnapshotOf(c), i, None);
    forall j | 0 <= j < |deps| ensures m.dependencies[j] == GraphRows.TextAt(labels, deps[j]) {
      NodeRead(hash, g, nodes, c, deps[j]);
    }
    assert m.dependencies == GraphRows.TextsAt(labels, deps);
    NumberedTexts(labels, deps);
    DepsDecode(hash, g, nodes, c, g.targets[nodes[i].origIdx], deps);
  }

  lemma TagsRead(m: Metadata, c: Columns, t: OptimizedTarget, tags: seq<int32>)
    requires GraphRows.TagsHold(m, c.tagDict, t, tags)
    ensures multiset(Named(GraphRows.TextsAt(c.tagDict, tags))) == multiset(Named(GraphRows.TextsOf(m.tags, t.tags)))
  {
    hide Named, GraphRows.TextsAt, GraphRows.TextsOf;
    NamedDropsEmpty(GraphRows.TextsAt(c.tagDict, tags));
    NamedDropsEmpty(GraphRows.TextsOf(m.tags, t.tags));
  }

  lemma {:induction false} TextAttrsAre(c: Columns, names: seq<int32>, values: seq<int32>)
    requires |names| == |values|
    ensures TextAttrs(c, names, values).Items <= GraphRows.TextPairs(DictsOf(c), names, values)
    ensures forall p | p in GraphRows.TextPairs(DictsOf(c), names, values) :: p.0 in TextAttrs(c, names, values)
    decreases |names|
  {
    if names != [] {
      hide GraphRows.TextAt, GraphRows.TextPairs;
      var n := |names| - 1;
      TextAttrsAre(c, names[..n], values[..n]);
      GraphRows.TextPairsMore(DictsOf(c), names[..n], values[..n], names[n], values[n]);
      assert names == names[..n] + [names[n]] && values == values[..n] + [values[n]];
      var front, attrs := TextAttrs(c, names[..n], values[..n]), TextAttrs(c, names, values);
      forall p | p in attrs.Items ensures p in GraphRows.TextPairs(DictsOf(c), names, values) {
        assert p.0 in attrs && attrs[p.0] == p.1;
        if p.0 != GraphRows.TextAt(c.attrNameDict, names[n]) {
          assert p in front.Items;
        }
      }
    } else {
      NoTextPairs(c);
    }
  }

  lemma NoTextPairs(c: Columns)
    ensures GraphRows.TextPairs(DictsOf(c), [], []) == {}
  {
  }

  lemma AttrsRead(m: Metadata, c: Columns, t: OptimizedTarget, names: seq<int32>, values: seq<int32>)
    requires GraphRows.AttrsHold(m, DictsOf(c), t, names, values)
    ensures SameAttrs(GraphRows.AttrPairs(m, t), TextAttrs(c, names, values).Items)
  {
    hide TextAttrs, GraphRows.TextPairs, GraphRows.AttrPairs, SameAttrs;
    TextAttrsAre(c, names, values);
    var pairs, attrs := GraphRows.AttrPairs(m, t), TextAttrs(c, names, values);
    forall p | p in pairs ensures exists q :: q in attrs.Items && q.0 == p.0 {
      assert (p.0, attrs[p.0]) in attrs.Items;
    }
    OnePairAName(pairs, attrs.Items);
  }

  lemma HashIsKept(hash: B.Hash, g: TargetGraph, nodes: seq<NodeInfo>, c: Columns, i: nat)
    requires Encodes(hash, g, nodes, c) && i < |nodes|
    ensures Rectangular(c) && |c.hashes| == c.NodeCount() * c.stride && c.NodeCount() == |nodes|
    ensures nodes[i].origIdx < |g.targets|
    ensures SnapshotOf(c).Hash(i) == H.Kept(g.targets[nodes[i].origIdx].hash, c.stride)
  {
    RowParts(hash, g, nodes, c, i);
    FlagsDecode(g, nodes, c, i);
    HashesAreHeld(hash, g, nodes, c);
    GraphDecodes(hash, g, nodes, c);
    HashDecodes(g, nodes, c, i);
    hide Encodes, NodeHolds, DecodeFlags, FlagBytes, KeyAt, TextAttrs, H.Kept, H.Column, H.Accepted, HexEncode, Member;
  }
}
