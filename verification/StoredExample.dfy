/** Two revisions that meet every hypothesis of the end-to-end comparison: a rule
    and its one source file, whose content changes. */
module StoredExample {
  import opened Wrappers
  import opened ByteStrings
  import opened Varint
  import opened Entity
  import opened TextSort
  import opened Merkle
  import opened Snapshot
  import opened TargetDiff
  import Blob
  import opened GraphNodes
  import opened GraphColumns
  import opened GraphEncode
  import opened EncodedSnapshot
  import opened MerkleClosure
  import opened Affected
  import opened EndToEnd
  import FullHasher
  import GraphRows
  import ItgState
  import RuleEncoding
  import TgbDiff
  import H = HashColumn
  import B = Blocks

  const RULE: Text := [97]
  const SOURCE: Text := [98]
  const LIBRARY: Text := [108, 105, 98]

  const RULE_VALUE := RuleEncoding.BazelRule(Some(RULE), Some(LIBRARY), None, [], [SOURCE], [], [], None)
  const ENCODING := RuleEncoding.RuleBytes(Some(RULE_VALUE))

  function Twenty(v: byte): (t: Text)
    ensures |t| == HASH_SIZE && t[0] == v
  {
    seq(HASH_SIZE, i => v)
  }

  /** The source file's content hash, before (1) and after (2). */
  function Content(v: byte): Text {
    Twenty(v)
  }

  const OWN := Twenty(10)

  /** A digest that tells what it is fed here apart. */
  function Fingerprint(x: Text): (t: Text)
    ensures |t| == HASH_SIZE && t[0] >= 10
  {
    if x == ENCODING then OWN else if x == OWN + Content(1) then Twenty(11) else Twenty(12)
  }

  function NeverDoubled(name: Text): bool {
    false
  }

  function WorldOf(v: byte): FullHasher.World {
    FullHasher.World(Fingerprint, name => Ok(Content(v)), name => false)
  }

  function Targets(): FullHasher.Infos {
    map[RULE := FullHasher.Info(LIBRARY, Some(RULE_VALUE), [], [SOURCE], None, true),
        SOURCE := FullHasher.Info(ItgState.SOURCE_FILE, None, [], [], None, false)]
  }

  function RevisionOf(v: byte): Revision {
    Revision(WorldOf(v), Targets(), map[RULE := Rule(OWN, [SOURCE]), SOURCE := Leaf(Content(v))],
             map[RULE := 1, SOURCE := 0])
  }

  lemma Names()
    ensures RULE != SOURCE && IsRuleType(LIBRARY) && !IsRuleType(ItgState.SOURCE_FILE)
    ensures ItgState.SOURCE_FILE != ItgState.GENERATED_FILE && ItgState.SOURCE_FILE != ItgState.PACKAGE_GROUP
    ensures ItgState.IsLeafType(ItgState.SOURCE_FILE)
  {
    assert RULE[0] == 97 && SOURCE[0] == 98 && |LIBRARY| == 3;
    assert |ItgState.SOURCE_FILE| == |Ascii("source file")| == 11;
    assert |ItgState.GENERATED_FILE| == |Ascii("generated file")| == 14;
    assert |ItgState.PACKAGE_GROUP| == |Ascii("package group")| == 13;
  }

  lemma OneInput()
    ensures InputDeps(NeverDoubled, [SOURCE]) == [SOURCE]
  {
    var labels := MerkleClosure.Labels(NeverDoubled, [SOURCE]);
    assert labels == [SOURCE];
    var sorted := SortTexts(labels);
    assert multiset(sorted) == multiset{SOURCE};
    assert |sorted| == |multiset(sorted)| == 1 && sorted[0] in multiset(sorted);
  }

  lemma Hashes(v: byte)
    ensures Ranked(RevisionOf(v).g, RevisionOf(v).rank)
    ensures RevisionOf(v).HashOf(SOURCE) == Content(v) && RevisionOf(v).HashOf(RULE) == Fingerprint(OWN + Content(v))
  {
    Names();
    var r := RevisionOf(v);
    hide Fingerprint, Twenty;
    assert DepsOf(r.g[RULE]) == [SOURCE] && DepsOf(r.g[SOURCE]) == [];
    assert Ranked(r.g, r.rank);
    assert [SOURCE][..0] == [];
    assert HashAll(Fingerprint, r.g, r.rank, [SOURCE], 1) == [] + Content(v) == Content(v);
  }

  lemma IsFromBazel(v: byte)
    ensures FromBazel(RevisionOf(v).w, NeverDoubled, RevisionOf(v).s)
    ensures FullHasher.OwnHash(RevisionOf(v).w, RevisionOf(v).s[RULE]) == OWN
  {
    Names();
    OneInput();
    assert Fingerprint(ENCODING) == OWN;
    hide Fingerprint, Twenty, ItgState.IsLeafType, IsRuleType, InputDeps;
  }

  lemma IsPictured(v: byte)
    ensures FullHasher.Pictures(RevisionOf(v).w, RevisionOf(v).g, RevisionOf(v).s)
  {
    Names();
    IsFromBazel(v);
    var r := RevisionOf(v);
    hide Fingerprint, Twenty, FullHasher.OwnHash, FromBazel;
    assert r.g[RULE] == FullHasher.NodeFor(r.w, RULE, r.s[RULE]);
    assert r.g[SOURCE] == FullHasher.NodeFor(r.w, SOURCE, r.s[SOURCE]);
    assert DepsOf(r.g[RULE]) == [SOURCE] && DepsOf(r.g[SOURCE]) == [];
  }

  lemma IsHashed(v: byte)
    ensures RevisionOf(v).Hashed(NeverDoubled)
  {
    IsFromBazel(v);
    IsPictured(v);
    Hashes(v);
    Names();
    hide Fingerprint, Twenty, IsRuleType, Ranked, FromBazel, FullHasher.Pictures, FullHasher.OwnHash, Revision.HashOf;
    assert |OWN| == HASH_SIZE;
  }

  lemma FingerprintsDiffer()
    ensures NoCollisions(Fingerprint, {ENCODING, OWN + Content(1), OWN + Content(2)})
  {
    hide RuleEncoding.RuleBytes;
    assert OWN[0] == 10 && Twenty(11)[0] == 11 && Twenty(12)[0] == 12;
    assert Content(1)[0] == 1 && Content(2)[0] == 2;
  }

  lemma Kinds(v: byte)
    ensures RevisionOf(v).w.digest == Fingerprint
    ensures forall n :: RevisionOf(v).IsLeaf(n) <==> n == SOURCE
    ensures forall n :: RevisionOf(v).IsRule(n) <==> n == RULE
  {
    Names();
    hide ItgState.IsLeafType, Fingerprint, Twenty;
  }

  lemma Below(v: byte)
    ensures RevisionOf(v).Below([SOURCE]) == Content(v)
  {
    Hashes(v);
    hide Fingerprint, Twenty, Revision.HashOf;
    assert [SOURCE][..0] == [];
    assert RevisionOf(v).Below([]) == [];
    assert RevisionOf(v).Below([SOURCE]) == [] + Content(v);
  }

  lemma Fed(v: byte)
    ensures RevisionOf(v).Preimages() == {ENCODING, OWN + Content(v)}
  {
    Kinds(v);
    Below(v);
    var r := RevisionOf(v);
    assert Fingerprint(ENCODING) == OWN && FullHasher.OwnHash(r.w, r.s[RULE]) == OWN;
    hide Fingerprint, Twenty, Revision.IsRule, Revision.Below;
    assert r.s[RULE].deps == [SOURCE] && r.s[RULE].rule == Some(RULE_VALUE);
    assert r.Encoding(RULE) == ENCODING && r.Preimage(RULE) == OWN + Content(v);
    hide Revision.Encoding, Revision.Preimage;
    assert RULE in r.s;
  }

  lemma HashesAreApart(v: byte, u: byte)
    requires v < 10
    ensures RevisionOf(v).HashOf(SOURCE) != RevisionOf(u).HashOf(RULE)
    ensures u < 10 && v != u ==> RevisionOf(v).HashOf(SOURCE) != RevisionOf(u).HashOf(SOURCE)
  {
    Hashes(v);
    Hashes(u);
    hide Twenty, Fingerprint;
    assert Content(v)[0] == v && Content(u)[0] == u && Fingerprint(OWN + Content(u))[0] >= 10;
  }

  /** The hypotheses on the revisions hold together. */
  lemma RevisionsCompare()
    ensures Comparable(NeverDoubled, RevisionOf(1), RevisionOf(2))
    ensures RevisionOf(1).IsRule(RULE) && RevisionOf(1).HashOf(SOURCE) != RevisionOf(2).HashOf(SOURCE)
  {
    hide RevisionOf, Revision.Hashed, Revision.HashOf, Revision.IsLeaf, Revision.IsRule, Revision.Preimages,
        NoCollisions,
      Twenty, Fingerprint, Content;
    IsHashed(1);
    IsHashed(2);
    Kinds(1);
    Kinds(2);
    Fed(1);
    Fed(2);
    FingerprintsDiffer();
    assert {ENCODING, OWN + Content(1), OWN + Content(2)} == RevisionOf(1).Preimages() + RevisionOf(2).Preimages();
    HashesAreApart(1, 2);
    HashesAreApart(2, 1);
  }

  // ---- Their files ----

  function GraphOf(v: byte): TargetGraph {
    TargetGraph([OptimizedTarget(0, HexEncode(Fingerprint(OWN + Content(v))), [1], 0, [], true, false, map[]),
                 OptimizedTarget(1, HexEncode(Content(v)), [], 1, [], false, false, map[])],
                Metadata(map[0 := RULE, 1 := SOURCE], map[0 := LIBRARY, 1 := ItgState.SOURCE_FILE], map[], map[], map[],
                         map[]))
  }

  lemma IsAcceptable(v: byte)
    ensures Representable(GraphOf(v)) && Encodable(GraphOf(v), HASH_SIZE)
  {
    IsRepresentable(v);
    IsEncodable(v);
  }

  lemma IsRepresentable(v: byte)
    ensures Representable(GraphOf(v))
  {
    hide Fingerprint, Twenty, HexEncode;
  }

  lemma IsEncodable(v: byte)
    ensures Encodable(GraphOf(v), HASH_SIZE)
  {
    var g := GraphOf(v);
    var x, y := Fingerprint(OWN + Content(v)), Content(v);
    IsStorable(x);
    IsStorable(y);
    hide Fingerprint, Twenty, HexEncode, H.Storable;
    assert g.targets[0].id == 0 && g.targets[1].id == 1;
    assert Resolvable(g, 1);
  }

  lemma IsStorable(x: Text)
    requires |x| == HASH_SIZE
    ensures H.Storable(HexEncode(x), HASH_SIZE)
  {
    H.HexDigits(x);
    hide HexEncode;
  }

  lemma IsCarried(v: byte)
    ensures Carries(GraphOf(v), RevisionOf(v))
  {
    Names();
    Hashes(v);
    PlainNames();
    var g, r := GraphOf(v), RevisionOf(v);
    hide Fingerprint, Twenty, HexEncode, PlainLabel, Revision.HashOf;
    assert LabelOf(g, 0) == RULE && LabelOf(g, 1) == SOURCE;
    assert GraphRows.TextsOf(g.metadata.targetNames, [1]) == [SOURCE];
    assert GraphRows.TextsOf(g.metadata.targetNames, []) == [];
  }

  lemma PlainNames()
    ensures PlainLabel(RULE) && PlainLabel(SOURCE)
  {
  }

  /** The nodes of either graph: the rule, then its source. */
  lemma NodesAre(g: TargetGraph, nodes: seq<NodeInfo>)
    requires IsNodes(g, nodes) && |g.targets| == 2
    requires var m := g.metadata.targetNames;
      && g.targets[0].id in m && m[g.targets[0].id] == RULE && g.targets[1].id in m && m[g.targets[1].id] == SOURCE
    ensures NodeLabels(nodes) == [RULE, SOURCE]
  {
    hide IsNodes, SplitLabel, KeyLess;
    NodesAreTargets(g, nodes);
    KeysInOrder();
    InKeyOrder(g, nodes);
    TwoInOrder(InfoOf(g, 0), InfoOf(g, 1), nodes);
  }

  lemma TwoInOrder(x: NodeInfo, y: NodeInfo, nodes: seq<NodeInfo>)
    requires |nodes| == 2 && nodes[0] in {x, y} && nodes[1] in {x, y} && nodes[0].origIdx != nodes[1].origIdx
    requires ByKey(nodes[0], nodes[1]) && !ByKey(y, x)
    ensures nodes == [x, y]
  {
    hide ByKey;
  }

  lemma KeysInOrder()
    ensures KeyLess(SplitLabel(RULE), SplitLabel(SOURCE))
  {
    assert SplitLabel(RULE) == Key([], RULE) && SplitLabel(SOURCE) == Key([], SOURCE);
    assert Less(RULE, SOURCE);
  }

  lemma InKeyOrder(g: TargetGraph, nodes: seq<NodeInfo>)
    requires IsNodes(g, nodes) && |nodes| == 2
    ensures ByKey(nodes[0], nodes[1])
  {
    hide ByKey;
  }

  /** A block digest under which no label ends a block. */
  function One(x: Text): uint64 {
    1
  }

  lemma OneBlock(names: seq<Text>)
    requires |names| == 2
    ensures B.Starts(One, 512, names, 0) == [0]
  {
  }

  lemma BlocksAreApart(names: seq<Text>)
    requires |names| == 2
    ensures DigestsDistinguish(One, 512, names, 512, names)
  {
    OneBlock(names);
  }

  /** The source file differs in itself, and the rule leads to it. */
  lemma BothAffected()
    ensures WellNamed(RevisionOf(1)) && WellNamed(RevisionOf(2))
    ensures IsAffected(RevisionOf(1), RevisionOf(2), SOURCE) && IsAffected(RevisionOf(1), RevisionOf(2), RULE)
  {
    Names();
    hide Fingerprint, Ascii;
    var b, a := RevisionOf(1), RevisionOf(2);
    assert a.IsLeaf(SOURCE) && LeafBytes(b, SOURCE)[0] == 1 && LeafBytes(a, SOURCE)[0] == 2;
    assert Leads(a, [SOURCE]) && Leads(a, [RULE, SOURCE]);
  }

  /** Both graphs are encoded and compared: every hypothesis holds at once. */
  method CompareExample(maxDistance: int, seedAttrs: Option<set<Text>>)
    returns (c: Columns, c': Columns, entries: seq<TgbDiff.Entry>, changed: map<Text, ChangedTarget>,
             ghost nodes: seq<NodeInfo>, ghost nodes': seq<NodeInfo>)
    ensures Comparable(NeverDoubled, RevisionOf(1), RevisionOf(2)) && RevisionOf(1).IsRule(RULE)
    ensures Stored(One, NeverDoubled, RevisionOf(1), GraphOf(1), nodes, c)
    ensures Stored(One, NeverDoubled, RevisionOf(2), GraphOf(2), nodes', c')
    ensures BlocksApart(One, nodes, c, nodes', c')
    ensures forall e | e in entries :: e.name in changed && e.distance == changed[e.name].distance
    ensures WellNamed(RevisionOf(1)) && WellNamed(RevisionOf(2)) && NamesAffected(RevisionOf(1), RevisionOf(2), entries)
    ensures IsAffected(RevisionOf(1), RevisionOf(2), SOURCE) && IsAffected(RevisionOf(1), RevisionOf(2), RULE)
  {
    hide *;
    RevisionsCompare();
    BothAffected();
    var before, after;
    before, nodes := EncodeExample(1);
    after, nodes' := EncodeExample(2);
    c, c' := before, after;
    ApartExample(nodes, c, nodes', c');
    entries, changed := CompareRevisions(One, c, c', maxDistance, seedAttrs, NeverDoubled, RevisionOf(1), GraphOf(1),
        nodes,
                                         RevisionOf(2), GraphOf(2), nodes');
  }

  lemma PowerOfTwo()
    ensures Blob.IsPowerOfTwo(512)
  {
    assert Blob.IsPowerOfTwo(8) && Blob.IsPowerOfTwo(32) && Blob.IsPowerOfTwo(128);
  }

  method EncodeExample(v: byte) returns (c: Columns, ghost nodes: seq<NodeInfo>)
    ensures Stored(One, NeverDoubled, RevisionOf(v), GraphOf(v), nodes, c)
    ensures NodeLabels(nodes) == [RULE, SOURCE] && c.blockSize == 512
  {
    hide Revision.Hashed, Carries, Encodes, Encodable, Representable, GraphOf, RevisionOf, NodeLabels;
    IsHashed(v);
    IsCarried(v);
    IsAcceptable(v);
    var cols;
    assert OptionsValid(Options(20, 512)) by {
      PowerOfTwo();
    }
    cols, nodes := EncodeColumns(One, GraphOf(v), Options(20, 512), 0);
    c := cols.value;
    EncodedNodes(v, nodes, c);
  }

  lemma EncodedNodes(v: byte, nodes: seq<NodeInfo>, c: Columns)
    requires Encodes(One, GraphOf(v), nodes, c)
    ensures NodeLabels(nodes) == [RULE, SOURCE]
  {
    hide HexEncode, Fingerprint, Twenty, DictsHold, HashesHold, BlocksHold, NodeHolds, Rectangular, NodeLabels;
    NodesAre(GraphOf(v), nodes);
  }

  lemma ApartExample(nodes: seq<NodeInfo>, c: Columns, nodes': seq<NodeInfo>, c': Columns)
    requires NodeLabels(nodes) == NodeLabels(nodes') == [RULE, SOURCE] && c.blockSize == c'.blockSize == 512
    ensures BlocksApart(One, nodes, c, nodes', c')
  {
    BlocksAreApart(NodeLabels(nodes));
  }
}
