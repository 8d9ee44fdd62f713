/** From hashed revisions through encoded files to the two comparisons. */
module EndToEnd {
  import opened Wrappers
  import opened ByteStrings
  import opened Sorting
  import opened Distance
  import opened TargetDiff
  import opened Snapshot
  import opened DigestAlign
  import opened GraphNodes
  import opened GraphColumns
  import opened GraphEncode
  import opened GraphRoundTrip
  import opened EncodedSnapshot
  import FullHasher
  import opened MerkleClosure
  import opened Affected
  import GraphRows
  import Refinement
  import TgbDiff
  import H = HashColumn
  import B = Blocks

  function LabelOf(g: TargetGraph, i: nat): Text
    requires i < |g.targets|
  {
    GraphRows.TextOf(g.metadata.targetNames, g.targets[i].id)
  }

  /** A label that survives being split and joined, and being cut by NULs. */
  predicate PlainLabel(n: Text) {
    n != [] && LastColon(n) != 0 && 0 !in n
  }

  /** The graph holds the targets of the revision, each once, with their full
      hashes in hexadecimal and their dependencies by label. */
  ghost predicate Carries(g: TargetGraph, r: Revision) {
    && (forall i | 0 <= i < |g.targets| ::
          LabelOf(g, i) in r.s && g.targets[i].hash == HexEncode(r.HashOf(LabelOf(g, i))))
    && (forall i, j | 0 <= i < j < |g.targets| :: LabelOf(g, i) != LabelOf(g, j))
    && (forall n | n in r.s :: PlainLabel(n) && exists i :: 0 <= i < |g.targets| && LabelOf(g, i) == n)
    && (forall i, d | 0 <= i < |g.targets| ::
          d in GraphRows.TextsOf(g.metadata.targetNames, g.targets[i].deps) <==> d in r.s[LabelOf(g, i)].deps)
  }

  /** A revision whose graph is encoded at full hash width. */
  ghost predicate Stored(hash: B.Hash, doubled: Text -> bool, r: Revision, g: TargetGraph, nodes: seq<NodeInfo>,
                         c: Columns) {
    r.Hashed(doubled) && Carries(g, r) && Encodes(hash, g, nodes, c) && c.stride == HASH_SIZE
  }

  lemma NodeIsCarried(hash: B.Hash, r: Revision, g: TargetGraph, nodes: seq<NodeInfo>, c: Columns, i: nat)
    requires Encodes(hash, g, nodes, c) && Carries(g, r) && i < |nodes|
    ensures nodes[i].origIdx < |g.targets| && nodes[i].name == LabelOf(g, nodes[i].origIdx) && nodes[i].name in r.s
    ensures PlainLabel(nodes[i].name) && Canonical(nodes[i].name) == nodes[i].name
  {
    hide Encodes, Canonical, PlainLabel;
    LabelDecodes(hash, g, nodes, c, i);
    PlainIsCanonical(nodes[i].name);
  }

  lemma PlainIsCanonical(n: Text)
    ensures PlainLabel(n) ==> Canonical(n) == n && n != []
  {
    CanonicalIs(n);
  }

  lemma CarriedLabelsApart(hash: B.Hash, r: Revision, g: TargetGraph, nodes: seq<NodeInfo>, c: Columns)
    requires Encodes(hash, g, nodes, c) && Carries(g, r)
    ensures LabelsApart(nodes) && B.NulFree(NodeLabels(nodes))
  {
    hide Encodes, Carries, Canonical, PlainLabel;
    forall i | 0 <= i < |nodes| ensures Canonical(nodes[i].name) != [] && 0 !in nodes[i].name {
      NodeIsCarried(hash, r, g, nodes, c, i);
      PlainParts(nodes[i].name);
    }
    forall i, j | 0 <= i < j < |nodes| ensures nodes[i].key != nodes[j].key {
      KeysApart(hash, r, g, nodes, c, i, j);
    }
  }

  lemma PlainParts(n: Text)
    ensures PlainLabel(n) ==> n != [] && 0 !in n
  {
  }

  lemma KeysApart(hash: B.Hash, r: Revision, g: TargetGraph, nodes: seq<NodeInfo>, c: Columns, i: nat, j: nat)
    requires Encodes(hash, g, nodes, c) && Carries(g, r) && i < j < |nodes|
    ensures nodes[i].key != nodes[j].key
  {
    hide Encodes, Carries, SplitLabel, JoinLabel, SnapshotOf, Rectangular, PlainLabel;
    NodesListTargets(hash, g, nodes, c);
    KeysAreNodes(hash, g, nodes, c);
    NodeIsCarried(hash, r, g, nodes, c, i);
    NodeIsCarried(hash, r, g, nodes, c, j);
    DifferentTargets(hash, r, g, nodes, c, i, j);
    assert SnapshotOf(c).keys[i] == nodes[i].key && SnapshotOf(c).keys[j] == nodes[j].key;
  }

  lemma DifferentTargets(hash: B.Hash, r: Revision, g: TargetGraph, nodes: seq<NodeInfo>, c: Columns, i: nat, j: nat)
    requires Encodes(hash, g, nodes, c) && Carries(g, r) && i < j < |nodes| && nodes[i].origIdx != nodes[j].origIdx
    ensures nodes[i].name != nodes[j].name
  {
    hide Encodes, PlainLabel;
    NodeIsCarried(hash, r, g, nodes, c, i);
    NodeIsCarried(hash, r, g, nodes, c, j);
  }

  /** What the comparison sees of a node is what the revision says of it. */
  lemma NodeReports(hash: B.Hash, doubled: Text -> bool, r: Revision, g: TargetGraph, nodes: seq<NodeInfo>, c: Columns,
                    seedAttrs: Option<set<Text>>, i: nat)
    requires Stored(hash, doubled, r, g, nodes, c) && i < |nodes|
    ensures Rectangular(c) && SnapshotOf(c).WellFormed() && i < SnapshotOf(c).NodeCount()
    ensures var m := MaterializeTarget(SnapshotOf(c), i, seedAttrs);
      && m.name == nodes[i].name && m.name in r.s && m.hash == HexEncode(r.HashOf(m.name))
      && forall d :: d in m.dependencies <==> d in r.s[m.name].deps
  {
    hide Encodes, Revision.Hashed, Revision.HashOf, SnapshotOf, Rectangular, GraphRows.TextsOf, H.Kept, HexEncode,
      Canonical, Named, SameAttrs,
      GraphRows.AttrPairs, PlainLabel, LabelsApart;
    CarriedLabelsApart(hash, r, g, nodes, c);
    MaterialisedIsEncoded(hash, g, nodes, c, i);
    NodeIsCarried(hash, r, g, nodes, c, i);
    FullHashKept(doubled, r, nodes[i].name);
    var m, k := MaterializeTarget(SnapshotOf(c), i, seedAttrs), nodes[i].origIdx;
    var names := GraphRows.TextsOf(g.metadata.targetNames, g.targets[k].deps);
    MaterialisedAlike(SnapshotOf(c), i, seedAttrs);
    SameElements(m.dependencies, Map(Canonical, names));
    forall d | d in names ensures d in r.s[m.name].deps && Canonical(d) == d {
      DependencyIsCarried(doubled, g, r, k, d);
    }
    CanonicalNames(names);
  }

  /** The allowlist only touches attributes. */
  lemma MaterialisedAlike(s: Snapshot, i: nat, seedAttrs: Option<set<Text>>)
    requires s.WellFormed() && i < s.NodeCount()
    ensures var m, t := MaterializeTarget(s, i, seedAttrs), MaterializeTarget(s, i, None);
      m.name == t.name && m.hash == t.hash && m.dependencies == t.dependencies
  {
  }

  lemma CanonicalNames(names: seq<Text>)
    requires forall d | d in names :: Canonical(d) == d
    ensures Map(Canonical, names) == names
  {
    hide Canonical;
    forall k | 0 <= k < |names| ensures Map(Canonical, names)[k] == names[k] {
      assert names[k] in names;
    }
  }

  lemma DependencyIsCarried(doubled: Text -> bool, g: TargetGraph, r: Revision, k: nat, d: Text)
    requires Carries(g, r) && r.Hashed(doubled) && k < |g.targets|
    requires d in GraphRows.TextsOf(g.metadata.targetNames, g.targets[k].deps)
    ensures d in r.s[LabelOf(g, k)].deps && Canonical(d) == d
  {
    hide GraphRows.TextsOf, Canonical, PlainLabel, Revision.HashOf;
    DependencyIsTarget(doubled, r, LabelOf(g, k), d);
    PlainIsCanonical(d);
  }

  /** Nothing a target of a hashed revision depends on is missing. */
  lemma DependencyIsTarget(doubled: Text -> bool, r: Revision, n: Text, d: Text)
    requires r.Hashed(doubled) && n in r.s && d in r.s[n].deps
    ensures d in r.s
  {
    hide Revision.Hashed, Revision.HashOf, Revision.Preimage, Revision.Encoding, FullHasher.OwnHash;
    KeysMatch(doubled, r);
    if r.IsRule(n) {
      RuleNode(doubled, r, n);
    } else if r.IsLeaf(n) {
      LeafHasNoDeps(doubled, r, n);
    } else {
      AliasNode(doubled, r, n);
    }
  }

  lemma FullHashKept(doubled: Text -> bool, r: Revision, n: Text)
    requires r.Hashed(doubled) && n in r.s
    ensures H.Kept(HexEncode(r.HashOf(n)), HASH_SIZE) == HexEncode(r.HashOf(n))
  {
    hide Revision.HashOf, H.Kept, HexEncode;
    KeysMatch(doubled, r);
    var b := r.HashOf(n);
    HashesComeBack(b, HASH_SIZE);
    assert b[..HASH_SIZE] == b;
  }

  lemma NameReports(hash: B.Hash, doubled: Text -> bool, r: Revision, g: TargetGraph, nodes: seq<NodeInfo>, c: Columns,
                    seedAttrs: Option<set<Text>>, n: Text)
    requires Stored(hash, doubled, r, g, nodes, c) && Rectangular(c) && SnapshotOf(c).WellFormed()
    requires n in Semantic(SnapshotOf(c), seedAttrs)
    ensures n in r.s
    ensures var t := Semantic(SnapshotOf(c), seedAttrs)[n];
      t.hash == HexEncode(r.HashOf(n)) && forall d :: d in t.dependencies <==> d in r.s[n].deps
  {
    hide SnapshotOf, HexEncode, Revision.HashOf, MaterializeTarget, Revision.Hashed, Encodes, Carries;
    NodesListTargets(hash, g, nodes, c);
    var s := SnapshotOf(c);
    var i := NodeOf(s, n);
    SemanticAt(s, seedAttrs, i);
    NodeReports(hash, doubled, r, g, nodes, c, seedAttrs, i);
    MaterialisedName(s, i, seedAttrs);
  }

  lemma MaterialisedName(s: Snapshot, i: nat, seedAttrs: Option<set<Text>>)
    requires s.WellFormed() && i < s.NodeCount()
    ensures MaterializeTarget(s, i, seedAttrs).name == s.Label(i)
  {
  }

  lemma NoNameIsMissing(hash: B.Hash, doubled: Text -> bool, r: Revision, g: TargetGraph, nodes: seq<NodeInfo>,
                        c: Columns,
                        seedAttrs: Option<set<Text>>, n: Text)
    requires Stored(hash, doubled, r, g, nodes, c) && Rectangular(c) && SnapshotOf(c).WellFormed() && n in r.s
    ensures n in Semantic(SnapshotOf(c), seedAttrs)
  {
    hide SnapshotOf, HexEncode, Revision.HashOf, MaterializeTarget, Revision.Hashed, Encodes, Carries, Semantic;
    var s := SnapshotOf(c);
    var i := CarriedAt(hash, r, g, nodes, c, n);
    NodeReports(hash, doubled, r, g, nodes, c, seedAttrs, i);
    MaterialisedName(s, i, seedAttrs);
    SemanticAt(s, seedAttrs, i);
  }

  /** The label-keyed graph of an encoded revision reports the revision. */
  lemma StoredReports(hash: B.Hash, doubled: Text -> bool, r: Revision, g: TargetGraph, nodes: seq<NodeInfo>,
                      c: Columns, seedAttrs: Option<set<Text>>)
    requires Stored(hash, doubled, r, g, nodes, c)
    ensures Rectangular(c) && SnapshotOf(c).WellFormed() && Reports(Semantic(SnapshotOf(c), seedAttrs), r)
  {
    hide SnapshotOf, Semantic, LabelsApart, MaterializeTarget, HexEncode, Revision.HashOf, Revision.Hashed, Encodes,
      Carries, Rectangular;
    CarriedLabelsApart(hash, r, g, nodes, c);
    EncodedIsWellFormed(hash, g, nodes, c);
    var t := Semantic(SnapshotOf(c), seedAttrs);
    forall n | n in t
      ensures n in r.s && t[n].hash == HexEncode(r.HashOf(n)) && forall d :: d in t[n].dependencies <==>
              d in r.s[n].deps
    {
      NameReports(hash, doubled, r, g, nodes, c, seedAttrs, n);
    }
    forall n | n in r.s ensures n in t {
      NoNameIsMissing(hash, doubled, r, g, nodes, c, seedAttrs, n);
    }
    AllReported(t, r);
  }

  lemma AllReported(t: Graph, r: Revision)
    requires (forall n | n in r.s :: n in t) && forall n | n in t :: n in r.s
    requires forall n | n in t ::
        t[n].hash == HexEncode(r.HashOf(n)) && forall d :: d in t[n].dependencies <==> d in r.s[n].deps
    ensures Reports(t, r)
  {
    hide HexEncode, Revision.HashOf;
    assert t.Keys == r.s.Keys;
  }

  lemma CarriedAt(hash: B.Hash, r: Revision, g: TargetGraph, nodes: seq<NodeInfo>, c: Columns, n: Text) returns (i: nat)
    requires Encodes(hash, g, nodes, c) && Carries(g, r) && n in r.s
    ensures i < |nodes| && nodes[i].name == n
  {
    hide Encodes, PlainLabel, HexEncode, Revision.HashOf, GraphRows.TextsOf;
    var k :| 0 <= k < |g.targets| && LabelOf(g, k) == n;
    i := NodeOfTarget(hash, g, nodes, c, k);
    NodeIsCarried(hash, r, g, nodes, c, i);
  }

  lemma NodeOfTarget(hash: B.Hash, g: TargetGraph, nodes: seq<NodeInfo>, c: Columns, k: nat) returns (i: nat)
    requires Encodes(hash, g, nodes, c) && k < |g.targets|
    ensures i < |nodes| && nodes[i].origIdx == k
  {
    hide DictsHold, HashesHold, BlocksHold, NodeHolds, Rectangular;
    SameElements(nodes, Infos(g));
    assert Infos(g)[k] in nodes;
    i :| 0 <= i < |nodes| && nodes[i] == Infos(g)[k];
  }

  /** The blocks of two encoded graphs do not collide under the digest. */
  ghost predicate BlocksApart(hash: B.Hash, nodes: seq<NodeInfo>, c: Columns, nodes': seq<NodeInfo>, c': Columns) {
    c.blockSize > 0 && c'.blockSize > 0 &&
    DigestsDistinguish(hash, c.blockSize, NodeLabels(nodes), c'.blockSize, NodeLabels(nodes'))
  }

  /** Two revisions, hashed and encoded: the index-space comparison of the files
      reports exactly what the reference reports of their graphs, distances
      included. */
  method CompareRevisions(hash: B.Hash, c: Columns, c': Columns, maxDistance: int, seedAttrs: Option<set<Text>>,
                          ghost doubled: Text -> bool,
                          ghost b: Revision, ghost gb: TargetGraph, ghost nodes: seq<NodeInfo>,
                          ghost a: Revision, ghost ga: TargetGraph, ghost nodes': seq<NodeInfo>)
    returns (entries: seq<TgbDiff.Entry>, changed: map<Text, ChangedTarget>)
    requires Comparable(doubled, b, a)
    requires Stored(hash, doubled, b, gb, nodes, c) && Stored(hash, doubled, a, ga, nodes', c')
    requires BlocksApart(hash, nodes, c, nodes', c')
    ensures Rectangular(c) && Rectangular(c') && SnapshotOf(c).WellFormed() && SnapshotOf(c').WellFormed()
    ensures Refinement.ReferenceHolds(Semantic(SnapshotOf(c), seedAttrs), Semantic(SnapshotOf(c'), seedAttrs),
        maxDistance, changed)
    ensures forall e | e in entries ::
        e.name in changed && e.changeType == changed[e.name].changeType && e.distance == changed[e.name].distance
    ensures forall n | n in changed :: exists e :: e in entries && e.name == n
    ensures forall i, j | 0 <= i < j < |entries| :: Less(entries[i].name, entries[j].name)
    ensures WellNamed(b) && WellNamed(a) ==> NamesAffected(b, a, entries)
  {
    hide *;
    ReadyToCompare(hash, doubled, b, gb, nodes, c, a, ga, nodes', c', seedAttrs);
    var report := TgbDiff.Compare(SnapshotOf(c), SnapshotOf(c'), maxDistance, seedAttrs);
    entries := report.value;
    var sb := SemanticGraph(SnapshotOf(c), seedAttrs);
    var sa := SemanticGraph(SnapshotOf(c'), seedAttrs);
    changed := Compare(sb, sa, maxDistance);
    ReferenceReport(sb, sa, maxDistance, changed);
    AscendingReport(sb, sa, maxDistance, entries);
    HashedComparisonsAgree(doubled, b, a, sb, sa, maxDistance, entries, changed);
    AllReportedExactly(doubled, b, a, sb, sa, maxDistance, entries);
  }

  lemma ReferenceReport(gb: Graph, ga: Graph, maxDistance: int, changed: map<Text, ChangedTarget>)
    requires changed.Keys == DirtyNames(gb, ga) + (gb.Keys - ga.Keys)
    requires forall n | n in changed :: EntryFor(gb, ga, n, changed[n])
    requires forall n | n in changed ::
        IsDistance(WalkDeps(DirtyNames(gb, ga), ga), Seeds(gb, ga), maxDistance, n, changed[n].distance)
    ensures Refinement.ReferenceHolds(gb, ga, maxDistance, changed)
  {
  }

  lemma AscendingReport(gb: Graph, ga: Graph, maxDistance: int, entries: seq<TgbDiff.Entry>)
    requires TgbDiff.ReportHolds(gb, ga, maxDistance, entries)
    ensures forall i, j | 0 <= i < j < |entries| :: Less(entries[i].name, entries[j].name)
  {
  }

  lemma ReadyToCompare(hash: B.Hash, doubled: Text -> bool, b: Revision, gb: TargetGraph, nodes: seq<NodeInfo>,
                       c: Columns,
                       a: Revision, ga: TargetGraph, nodes': seq<NodeInfo>, c': Columns, seedAttrs: Option<set<Text>>)
    requires Stored(hash, doubled, b, gb, nodes, c) && Stored(hash, doubled, a, ga, nodes', c')
    requires BlocksApart(hash, nodes, c, nodes', c')
    ensures Rectangular(c) && Rectangular(c') && SnapshotOf(c).WellFormed() && SnapshotOf(c').WellFormed()
    ensures SnapshotOf(c).stride == SnapshotOf(c').stride
    ensures DigestsHonest(SnapshotOf(c), SnapshotOf(c')) && BlocksAgree(SnapshotOf(c), SnapshotOf(c'))
    ensures Reports(Semantic(SnapshotOf(c), seedAttrs), b) && Reports(Semantic(SnapshotOf(c'), seedAttrs), a)
    ensures Refinement.Closed(Semantic(SnapshotOf(c'), seedAttrs))
  {
    hide SnapshotOf, DigestsHonest, BlocksAgree, Semantic, Reports, Refinement.Closed, Rectangular, Encodes,
      DigestsDistinguish, Carries, Revision.Hashed;
    StoredReports(hash, doubled, b, gb, nodes, c, seedAttrs);
    StoredReports(hash, doubled, a, ga, nodes', c', seedAttrs);
    CarriedLabelsApart(hash, b, gb, nodes, c);
    CarriedLabelsApart(hash, a, ga, nodes', c');
    EncodedDigestsAreHonest(hash, gb, nodes, c, ga, nodes', c');
    Refinement.SemanticIsClosed(SnapshotOf(c'), seedAttrs);
    SnapshotFields(c);
    SnapshotFields(c');
  }
}
