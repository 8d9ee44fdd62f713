/** Two encoded graphs on which the comparisons report different distances. */
module SplitDistances {
  import opened Wrappers
  import opened ByteStrings
  import opened Distance
  import opened TargetDiff
  import opened Snapshot
  import opened DigestAlign
  import opened Refinement
  import TgbDiff

  const LEAF: Text := [108]
  const MIDDLE: Text := [109]
  const LOW: Text := [112]
  const HIGH: Text := [113]
  const TOP: Text := [116]
  const LIBRARY: Text := [108, 105, 98]
  const STRIDE := 20

  /** A hash of full width. */
  function Bytes(v: byte): seq<byte> {
    seq(STRIDE, i => v)
  }

  /** Five rules; the second has one hash in both revisions. */
  function DiamondSnapshot(v: byte): Snapshot {
    Snapshot([Key([], LEAF), Key([], MIDDLE), Key([], LOW), Key([], HIGH), Key([], TOP)], STRIDE,
             Bytes(v) + Bytes(1) + Bytes(v) + Bytes(v) + Bytes(v), None, [LIBRARY], [0, 0, 0, 0, 0],
             [[], [0], [0], [2], [1, 3]], [[], [], [], [], []], [map[], map[], map[], map[], map[]],
             [false, false, false, false, true], [false, false, false, false, false], [0], [7])
  }

  function Plain(name: Text, hash: Text, dependencies: seq<Text>): Target {
    Target(name, hash, LIBRARY, dependencies, [], map[], name == TOP, false)
  }

  function Diamond(changed: Text, kept: Text): Graph {
    map[LEAF := Plain(LEAF, changed, []), MIDDLE := Plain(MIDDLE, kept, [LEAF]), LOW := Plain(LOW, changed, [LEAF]),
        HIGH := Plain(HIGH, changed, [LOW]), TOP := Plain(TOP, changed, [MIDDLE, HIGH])]
  }

  lemma DiamondNames()
    ensures LEAF != MIDDLE && LEAF != LOW && LEAF != HIGH && LEAF != TOP && MIDDLE != LOW && MIDDLE != HIGH
    ensures MIDDLE != TOP && LOW != HIGH && LOW != TOP && HIGH != TOP && SOURCE_FILE != LIBRARY
    ensures [] !in {LEAF, MIDDLE, LOW, HIGH, TOP}
  {
    assert LEAF[0] == 108 && MIDDLE[0] == 109 && LOW[0] == 112 && HIGH[0] == 113 && TOP[0] == 116;
    assert |SOURCE_FILE| == |Ascii("source file")| == 11;
  }

  lemma HashesDiffer()
    ensures HexEncode(Bytes(2)) != HexEncode(Bytes(3))
  {
    hide HexEncode;
    assert Bytes(2)[0] != Bytes(3)[0];
    if HexEncode(Bytes(2)) == HexEncode(Bytes(3)) {
      HexEncodeInjective(Bytes(2), Bytes(3));
    }
  }

  // ---- The snapshots and their graphs ----

  lemma DiamondIsWellFormed(v: byte)
    ensures DiamondSnapshot(v).WellFormed()
  {
    var r := DiamondSnapshot(v);
    assert r.NodeCount() == 5 && |r.hashes| == 100;
    DiamondAscends();
    hide KeyLess, Less, HexEncode;
    assert forall i | 0 <= i < 5 :: JoinLabel(r.keys[i]) == r.keys[i].name && |r.keys[i].name| == 1;
  }

  lemma DiamondAscends()
    ensures Ascending(DiamondSnapshot(0).keys)
  {
    forall x: byte, y: byte | x < y ensures KeyLess(Key([], [x]), Key([], [y])) {
      assert Less([x], [y]);
    }
  }

  lemma DiamondStrides(v: byte)
    ensures var r := DiamondSnapshot(v);
      && r.NodeCount() == 5 && |r.hashes| == 5 * r.stride
      && r.Stride(0) == r.Stride(2) == r.Stride(3) == r.Stride(4) == Bytes(v) && r.Stride(1) == Bytes(1)
  {
  }

  function NameAt(i: nat): Text
    requires i < 5
  {
    [LEAF, MIDDLE, LOW, HIGH, TOP][i]
  }

  lemma NodeParts(v: byte, i: nat)
    requires i < 5
    ensures var r := DiamondSnapshot(v);
      && r.NodeCount() == 5 && |r.hashes| == 5 * r.stride && r.Label(i) == NameAt(i) && r.RuleType(i) == LIBRARY
      && r.Hash(i) == HexEncode(Bytes(if i == 1 then 1 else v))
      && r.tags[i] == [] && r.attrs[i] == map[] && r.roots[i] == (i == 4) && !r.externals[i]
      && (forall d | d in r.deps[i] :: 0 <= d < 5)
  {
    DiamondStrides(v);
    hide HexEncode, Bytes;
  }

  function DepsAt(i: nat): seq<Text>
    requires i < 5
  {
    [[], [LEAF], [LEAF], [LOW], [MIDDLE, HIGH]][i]
  }

  function TargetAt(i: nat, changed: Text, kept: Text): Target
    requires i < 5
  {
    Plain(NameAt(i), if i == 1 then kept else changed, DepsAt(i))
  }

  lemma DepsAreNamed(v: byte, i: nat)
    requires i < 5
    ensures var deps := DiamondSnapshot(v).deps[i];
      |deps| == |DepsAt(i)| && forall j | 0 <= j < |deps| :: 0 <= deps[j] < 5 && NameAt(deps[j]) == DepsAt(i)[j]
  {
    hide HexEncode, Bytes;
  }

  /** What is materialised of node `i`. */
  lemma DiamondTarget(v: byte, seedAttrs: Option<set<Text>>, i: nat)
    requires i < 5 && DiamondSnapshot(v).WellFormed()
    ensures i < DiamondSnapshot(v).NodeCount()
    ensures MaterializeTarget(DiamondSnapshot(v), i, seedAttrs) ==
            TargetAt(i, HexEncode(Bytes(v)), HexEncode(Bytes(1)))
  {
    var r := DiamondSnapshot(v);
    NodeParts(v, i);
    DiamondNames();
    DepsAreNamed(v, i);
    forall j | 0 <= j < |r.deps[i]| ensures r.Label(r.deps[i][j]) == DepsAt(i)[j] {
      NodeParts(v, r.deps[i][j]);
    }
    assert NameAt(i) == TOP <==> i == 4;
    hide DiamondSnapshot, HexEncode, Bytes, NameAt, DepsAt, r.WellFormed, r.Hash, r.Label, r.RuleType;
    PlainMaterialized(r, seedAttrs, i, NameAt(i), HexEncode(Bytes(if i == 1 then 1 else v)), DepsAt(i));
  }

  lemma PlainMaterialized(r: Snapshot, seedAttrs: Option<set<Text>>, i: nat, name: Text, hash: Text, deps: seq<Text>)
    requires r.WellFormed() && i < r.NodeCount() && r.Label(i) == name && r.Hash(i) == hash
    requires r.RuleType(i) == LIBRARY && r.tags[i] == [] && r.attrs[i] == map[] && !r.externals[i]
    requires r.roots[i] == (name == TOP) && |r.deps[i]| == |deps|
    requires forall j | 0 <= j < |deps| :: 0 <= r.deps[i][j] < r.NodeCount() && r.Label(r.deps[i][j]) == deps[j]
    ensures MaterializeTarget(r, i, seedAttrs) == Plain(name, hash, deps)
  {
    hide r.WellFormed, r.Hash, r.Label, r.RuleType;
    assert Allowed(map[], seedAttrs) == map[] && Named([]) == [];
    assert MaterializeTarget(r, i, seedAttrs).dependencies == deps;
  }

  /** The graph lists the five targets. */
  lemma DiamondLists(changed: Text, kept: Text)
    ensures forall n :: n in Diamond(changed, kept) <==> exists i: nat :: i < 5 && n == NameAt(i)
    ensures forall i: nat | i < 5 :: Diamond(changed, kept)[NameAt(i)] == TargetAt(i, changed, kept)
  {
    hide TargetAt, NameAt;
    NamesInOrder();
    assert Diamond(changed, kept).Keys == {LEAF, MIDDLE, LOW, HIGH, TOP};
    forall i: nat | i < 5 ensures Diamond(changed, kept)[NameAt(i)] == TargetAt(i, changed, kept) {
      DiamondAt(changed, kept, i);
    }
  }

  lemma NamesInOrder()
    ensures NameAt(0) == LEAF && NameAt(1) == MIDDLE && NameAt(2) == LOW && NameAt(3) == HIGH && NameAt(4) == TOP
  {
  }

  lemma DiamondAt(changed: Text, kept: Text, i: nat)
    requires i < 5
    ensures NameAt(i) in Diamond(changed, kept)
    ensures Diamond(changed, kept)[NameAt(i)] == TargetAt(i, changed, kept)
  {
    DiamondNames();
  }

  /** A graph that lists what is materialised of every node is the semantic one. */
  lemma ListedIsSemantic(r: Snapshot, seedAttrs: Option<set<Text>>, g: Graph)
    requires r.WellFormed()
    requires forall i: nat | i < r.NodeCount() ::
        r.Label(i) in g && g[r.Label(i)] == MaterializeTarget(r, i, seedAttrs)
    requires forall n | n in g :: exists i: nat :: i < r.NodeCount() && r.Label(i) == n
    ensures Semantic(r, seedAttrs) == g
  {
    hide MaterializeTarget, r.WellFormed, r.Label, Semantic;
    var s := Semantic(r, seedAttrs);
    forall n | n in g ensures n in s && s[n] == g[n] {
      var i: nat :| i < r.NodeCount() && r.Label(i) == n;
      SemanticAt(r, seedAttrs, i);
    }
    forall n | n in s ensures n in g {
      LabelOfNode(r, seedAttrs, n);
    }
  }

  lemma LabelOfNode(r: Snapshot, seedAttrs: Option<set<Text>>, name: Text)
    requires r.WellFormed() && name in Semantic(r, seedAttrs)
    ensures exists i: nat :: i < r.NodeCount() && r.Label(i) == name
  {
    hide MaterializeTarget, r.WellFormed, r.Label;
    assert r.Label(NodeOf(r, name)) == name;
  }

  lemma DiamondIsSemantic(v: byte, seedAttrs: Option<set<Text>>)
    ensures DiamondSnapshot(v).WellFormed()
    ensures Semantic(DiamondSnapshot(v), seedAttrs) == Diamond(HexEncode(Bytes(v)), HexEncode(Bytes(1)))
  {
    hide MaterializeTarget, HexEncode, Bytes, Diamond, TargetAt, DiamondSnapshot, NameAt, Semantic;
    DiamondIsWellFormed(v);
    var r, changed, kept := DiamondSnapshot(v), HexEncode(Bytes(v)), HexEncode(Bytes(1));
    hide r.WellFormed, r.Label;
    DiamondLists(changed, kept);
    NodeParts(v, 0);
    forall i: nat | i < 5
      ensures r.Label(i) == NameAt(i) && Diamond(changed, kept)[NameAt(i)] == MaterializeTarget(r, i, seedAttrs)
    {
      NodeParts(v, i);
      DiamondTarget(v, seedAttrs, i);
    }
    forall n | n in Diamond(changed, kept) ensures exists i: nat :: i < r.NodeCount() && r.Label(i) == n {
      var i: nat :| i < 5 && n == NameAt(i);
      assert r.Label(i) == n;
    }
    ListedIsSemantic(r, seedAttrs, Diamond(changed, kept));
  }

  /** A changed rule whose one changed dependency explains its change. */
  lemma ExplainedRule(x: Text, y: Text, kept: Text, gb: Graph, ga: Graph, name: Text, d: Text)
    requires gb == Diamond(x, kept) && ga == Diamond(y, kept) && x != y
    requires name in ga && IsChanged(gb, ga, name) && d in ga[name].dependencies && IsChanged(gb, ga, d)
    ensures !IsSeed(gb, ga, name)
  {
    DiamondNames();
    assert gb[name].dependencies == ga[name].dependencies;
    assert forall n | n in ga :: ga[n].ruleType == LIBRARY;
  }

  lemma DiamondSeeds(x: Text, y: Text, kept: Text, gb: Graph, ga: Graph)
    requires gb == Diamond(x, kept) && ga == Diamond(y, kept) && x != y
    ensures Seeds(gb, ga) == {LEAF}
    ensures DirtyNames(gb, ga) == {LEAF, LOW, HIGH, TOP}
  {
    DiamondNames();
    assert ga[LOW].dependencies[0] == LEAF && ga[HIGH].dependencies[0] == LOW && ga[TOP].dependencies[1] == HIGH;
    ExplainedRule(x, y, kept, gb, ga, LOW, LEAF);
    ExplainedRule(x, y, kept, gb, ga, HIGH, LOW);
    ExplainedRule(x, y, kept, gb, ga, TOP, HIGH);
    assert IsSeed(gb, ga, LEAF) && !IsSeed(gb, ga, MIDDLE);
    hide IsSeed;
    assert ga.Keys == gb.Keys == {LEAF, MIDDLE, LOW, HIGH, TOP};
  }

  lemma NearWalk(all: map<Text, seq<Text>>)
    requires TOP in all && all[TOP] == [MIDDLE, HIGH] && MIDDLE in all && all[MIDDLE] == [LEAF]
    ensures IsDistance(all, {LEAF}, -1, TOP, 2)
  {
    DiamondNames();
    var seeds := {LEAF};
    WithinStep(all, seeds, MIDDLE, LEAF, 0);
    assert all[TOP][0] == MIDDLE;
    WithinStep(all, seeds, TOP, MIDDLE, 1);
    assert !Within(all, seeds, MIDDLE, 0) && !Within(all, seeds, HIGH, 0);
  }

  lemma FarWalk(dirty: map<Text, seq<Text>>)
    requires TOP in dirty && dirty[TOP] == [MIDDLE, HIGH] && MIDDLE !in dirty
    requires HIGH in dirty && dirty[HIGH] == [LOW] && LOW in dirty && dirty[LOW] == [LEAF]
    ensures IsDistance(dirty, {LEAF}, -1, TOP, 3)
  {
    DiamondNames();
    var seeds := {LEAF};
    WithinStep(dirty, seeds, LOW, LEAF, 0);
    WithinStep(dirty, seeds, HIGH, LOW, 1);
    assert dirty[TOP][1] == HIGH;
    WithinStep(dirty, seeds, TOP, HIGH, 2);
    assert !Within(dirty, seeds, LOW, 0);
    assert !Within(dirty, seeds, HIGH, 1) && !Within(dirty, seeds, MIDDLE, 1);
  }

  lemma DiamondSplits(x: Text, y: Text, kept: Text, gb: Graph, ga: Graph)
    requires gb == Diamond(x, kept) && ga == Diamond(y, kept) && x != y
    ensures !MerkleClosed(gb, ga) && !NearerDirty(gb, ga, -1)
    ensures IsDistance(WalkDeps(ga.Keys, ga), Seeds(gb, ga), -1, TOP, 2)
    ensures IsDistance(WalkDeps(DirtyNames(gb, ga), ga), Seeds(gb, ga), -1, TOP, 3)
  {
    DiamondNames();
    DiamondSeeds(x, y, kept, gb, ga);
    var all := WalkDeps(ga.Keys, ga);
    assert all[HIGH] == [LOW] && ga[TOP].dependencies == [MIDDLE, HIGH];
    hide Seeds, IsSeed, DirtyNames, IsDistance;
    assert ga[MIDDLE].dependencies[0] == LEAF && IsDirty(gb, ga, LEAF) && !IsDirty(gb, ga, MIDDLE);
    NearWalk(all);
    FarWalk(WalkDeps({LEAF, LOW, HIGH, TOP}, ga));
    HighIsFar(all);
    hide Diamond, WalkDeps, MerkleClosed, IsDirty;
    TopIsTooFar(gb, ga);
  }

  lemma TopIsTooFar(gb: Graph, ga: Graph)
    requires TOP in ga && ga[TOP].dependencies == [MIDDLE, HIGH] && TOP in DirtyNames(gb, ga)
    requires MIDDLE !in DirtyNames(gb, ga) + Seeds(gb, ga)
    requires IsDistance(WalkDeps(ga.Keys, ga), Seeds(gb, ga), -1, TOP, 2)
    requires !IsDistance(WalkDeps(ga.Keys, ga), Seeds(gb, ga), -1, HIGH, 1)
    ensures !NearerDirty(gb, ga, -1)
  {
    hide IsDistance, WalkDeps, Seeds, DirtyNames;
    assert forall m | m in ga[TOP].dependencies && m in DirtyNames(gb, ga) + Seeds(gb, ga) :: m == HIGH;
  }

  lemma HighIsFar(all: map<Text, seq<Text>>)
    requires HIGH in all && all[HIGH] == [LOW]
    ensures !IsDistance(all, {LEAF}, -1, HIGH, 1)
  {
    DiamondNames();
    assert !Within(all, {LEAF}, LOW, 0);
  }

  lemma DiamondsAgree(v: byte, u: byte)
    ensures var b, a := DiamondSnapshot(v), DiamondSnapshot(u);
      b.stride == a.stride && DigestsHonest(b, a) && BlocksAgree(b, a)
  {
    hide HexEncode, Bytes;
  }

  /** Without Merkle closure the distances can differ: a target reachable both
      through an unchanged middle and through a longer changed chain is at 2 for
      the fast comparison and at 3 for the reference. Both snapshots are what the
      fast comparison accepts. */
  lemma UnchangedMiddleSplitsDistances(b: Snapshot, a: Snapshot, seedAttrs: Option<set<Text>>)
    requires b == DiamondSnapshot(2) && a == DiamondSnapshot(3)
    ensures b.WellFormed() && a.WellFormed() && b.stride == a.stride && DigestsHonest(b, a) && BlocksAgree(b, a)
    ensures var gb, ga := Semantic(b, seedAttrs), Semantic(a, seedAttrs);
      && !MerkleClosed(gb, ga) && !NearerDirty(gb, ga, -1)
      && IsDistance(WalkDeps(ga.Keys, ga), Seeds(gb, ga), -1, TOP, 2)
      && IsDistance(WalkDeps(DirtyNames(gb, ga), ga), Seeds(gb, ga), -1, TOP, 3)
  {
    hide *;
    DiamondIsSemantic(2, seedAttrs);
    DiamondIsSemantic(3, seedAttrs);
    DiamondsAgree(2, 3);
    HashesDiffer();
    DiamondSplits(HexEncode(Bytes(2)), HexEncode(Bytes(3)), HexEncode(Bytes(1)), Semantic(b, seedAttrs),
                  Semantic(a, seedAttrs));
  }

  /** So the two reports disagree, whatever else they hold. */
  lemma ReportsDisagree(b: Snapshot, a: Snapshot, seedAttrs: Option<set<Text>>, entries: seq<TgbDiff.Entry>,
                        changed: map<Text, ChangedTarget>)
    requires b == DiamondSnapshot(2) && a == DiamondSnapshot(3) && b.WellFormed() && a.WellFormed()
    requires TgbDiff.ReportHolds(Semantic(b, seedAttrs), Semantic(a, seedAttrs), -1, entries)
    requires ReferenceHolds(Semantic(b, seedAttrs), Semantic(a, seedAttrs), -1, changed)
    ensures TOP in changed && changed[TOP].distance == 3
    ensures exists e :: e in entries && e.name == TOP && e.distance == 2
  {
    UnchangedMiddleSplitsDistances(b, a, seedAttrs);
    TopIsReported(b, a, seedAttrs);
    var gb, ga := Semantic(b, seedAttrs), Semantic(a, seedAttrs);
    hide Semantic, b.WellFormed, a.WellFormed, DiamondSnapshot, MerkleClosed, NearerDirty;
    ReportedDistances(gb, ga, entries, changed, TOP, 2, 3);
  }

  lemma ReportedDistances(gb: Graph, ga: Graph, entries: seq<TgbDiff.Entry>, changed: map<Text, ChangedTarget>, n: Text,
                          fast: int, slow: int)
    requires TgbDiff.ReportHolds(gb, ga, -1, entries) && ReferenceHolds(gb, ga, -1, changed) && n in DirtyNames(gb, ga)
    requires IsDistance(WalkDeps(ga.Keys, ga), Seeds(gb, ga), -1, n, fast)
    requires IsDistance(WalkDeps(DirtyNames(gb, ga), ga), Seeds(gb, ga), -1, n, slow)
    ensures n in changed && changed[n].distance == slow
    ensures exists e :: e in entries && e.name == n && e.distance == fast
  {
    hide IsDistance, IsSeed, IsDirty, Named;
    DistanceUnique(WalkDeps(DirtyNames(gb, ga), ga), Seeds(gb, ga), -1, n, changed[n].distance, slow);
    var e :| e in entries && e.name == n;
    assert TgbDiff.EntryHolds(gb, ga, -1, e);
    DistanceUnique(WalkDeps(ga.Keys, ga), Seeds(gb, ga), -1, n, e.distance, fast);
  }

  lemma TopIsReported(b: Snapshot, a: Snapshot, seedAttrs: Option<set<Text>>)
    requires b == DiamondSnapshot(2) && a == DiamondSnapshot(3) && b.WellFormed() && a.WellFormed()
    ensures TOP in DirtyNames(Semantic(b, seedAttrs), Semantic(a, seedAttrs))
  {
    DiamondIsSemantic(2, seedAttrs);
    DiamondIsSemantic(3, seedAttrs);
    HashesDiffer();
    DiamondSeeds(HexEncode(Bytes(2)), HexEncode(Bytes(3)), HexEncode(Bytes(1)), Semantic(b, seedAttrs),
                 Semantic(a, seedAttrs));
  }
}
