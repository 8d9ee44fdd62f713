/** Decoding an encoded graph gives the graph back, under new numbers. */
module GraphRoundTrip {
  import opened Wrappers
  import opened ByteStrings
  import opened Varint
  import opened Entity
  import opened Sorting
  import opened Interning
  import opened FlagColumn
  import opened Container
  import opened Blob
  import opened Snapshot
  import opened GraphNodes
  import opened GraphRows
  import opened GraphColumns
  import opened GraphFiles
  import opened GraphEncode
  import opened GraphDecode
  import H = HashColumn
  import B = Blocks
  import L = ListColumns

  // ---- What a graph says, whatever its numbers ----

  /** A label as it is stored: split at its last colon and joined again. */
  function Canonical(name: Text): Text {
    JoinLabel(SplitLabel(name))
  }

  ghost predicate Functional(pairs: set<(Text, Text)>) {
    forall p, q | p in pairs && q in pairs && p.0 == q.0 :: p == q
  }

  /** `t'` in `g'` is `t` in `g`: the same label, rule type, dependencies, tags
      and flags, the stored part of the hash, and of the attributes one pair for
      every name. */
  ghost predicate SameTarget(g: TargetGraph, t: OptimizedTarget, g': TargetGraph, t': OptimizedTarget, stride: nat) {
    var m, m' := g.metadata, g'.metadata;
    && TextOf(m'.targetNames, t'.id) == Canonical(TextOf(m.targetNames, t.id))
    && t'.hash == H.Kept(t.hash, stride)
    && TextOf(m'.ruleTypes, t'.ruleType) == TextOf(m.ruleTypes, t.ruleType)
    && multiset(TextsOf(m'.targetNames, t'.deps)) == multiset(Map(Canonical, TextsOf(m.targetNames, t.deps)))
    && multiset(TextsOf(m'.tags, t'.tags)) == multiset(TextsOf(m.tags, t.tags))
    && SameAttrs(AttrPairs(m, t), AttrPairs(m', t'))
    && t'.root == t.root && t'.external == t.external
  }

  /** No pair is made up, no name is lost, and all pairs are kept exactly when no
      name stands with two values. */
  ghost predicate SameAttrs(pairs: set<(Text, Text)>, pairs': set<(Text, Text)>) {
    && pairs' <= pairs
    && (forall p | p in pairs :: exists q :: q in pairs' && q.0 == p.0)
    && (pairs' == pairs <==> Functional(pairs))
  }

  /** `g'` holds the targets of `g`, each once, in the order of `nodes`, and the
      same file hashes. */
  ghost predicate Restored(g: TargetGraph, nodes: seq<NodeInfo>, g': TargetGraph, stride: nat) {
    && |g'.targets| == |g.targets| == |nodes| && g'.metadata.fileHashes == g.metadata.fileHashes
    && (forall i, j | 0 <= i < j < |nodes| :: nodes[i].origIdx != nodes[j].origIdx)
    && forall i | 0 <= i < |nodes| ::
          nodes[i].origIdx < |g.targets| && SameTarget(g, g.targets[nodes[i].origIdx], g', g'.targets[i], stride)
  }

  // ---- Numbers ----

  lemma {:induction false} NumberedIs(texts: seq<Text>, id: int32)
    requires |texts| < TWO_31
    ensures id in Numbered(texts) <==> 0 <= id < |texts|
    ensures TextOf(Numbered(texts), id) == TextAt(texts, id)
    decreases |texts|
  {
    if texts != [] {
      NumberedIs(texts[..|texts| - 1], id);
    }
  }

  lemma NumberedTexts(texts: seq<Text>, ids: seq<int32>)
    requires |texts| < TWO_31
    ensures TextsOf(Numbered(texts), ids) == TextsAt(texts, ids)
  {
    forall k | 0 <= k < |ids| ensures TextOf(Numbered(texts), ids[k]) == TextAt(texts, ids[k]) {
      NumberedIs(texts, ids[k]);
    }
  }

  // ---- Attributes ----

  lemma {:induction false} AttrMapIs(names: seq<int32>, values: seq<int32>)
    requires |names| == |values|
    ensures forall k | 0 <= k < |names| :: names[k] in AttrMap(names, values)
    ensures forall a | a in AttrMap(names, values) ::
        exists k :: 0 <= k < |names| && names[k] == a && values[k] == AttrMap(names, values)[a]
    decreases |names|
  {
    if names != [] {
      var n := |names| - 1;
      AttrMapIs(names[..n], values[..n]);
      var front := AttrMap(names[..n], values[..n]);
      forall a | a in AttrMap(names, values)
        ensures exists k :: 0 <= k < |names| && names[k] == a && values[k] == AttrMap(names, values)[a]
      {
        if a == names[n] {
          assert values[n] == AttrMap(names, values)[a];
        } else {
          var k :| 0 <= k < n && names[..n][k] == a && values[..n][k] == front[a];
          assert names[k] == a;
        }
      }
    }
  }

  lemma AttrsDecode(dicts: RowDicts, names: seq<int32>, values: seq<int32>, m: Metadata, t: OptimizedTarget)
    requires |names| == |values| && InRange(names, |dicts.attrNames|) && InRange(values, |dicts.attrValues|)
    requires NoDuplicates(dicts.attrNames) && |dicts.attrNames| < TWO_31 && |dicts.attrValues| < TWO_31
    requires m.attributeNames == Numbered(dicts.attrNames) && m.attributeValues == Numbered(dicts.attrValues)
    requires t.attributes == AttrMap(names, values)
    ensures SameAttrs(TextPairs(dicts, names, values), AttrPairs(m, t))
  {
    hide TextAt, TextOf, Numbered, AttrMap;
    var pairs, pairs' := TextPairs(dicts, names, values), AttrPairs(m, t);
    AttrMapIs(names, values);
    PairsAreKept(dicts, names, values, m, t);
    NamesAreKept(dicts, names, values, m, t);
    OnePairAName(pairs, pairs');
  }

  /** One pair for every name is all pairs exactly when no name has two. */
  lemma OnePairAName(pairs: set<(Text, Text)>, pairs': set<(Text, Text)>)
    requires pairs' <= pairs && Functional(pairs') && forall p | p in pairs :: exists q :: q in pairs' && q.0 == p.0
    ensures SameAttrs(pairs, pairs')
  {
    if Functional(pairs) {
      forall p | p in pairs ensures p in pairs' {
        var q :| q in pairs' && q.0 == p.0;
      }
    }
  }

  /** Decoded pairs are written ones, and no two have one name. */
  lemma PairsAreKept(dicts: RowDicts, names: seq<int32>, values: seq<int32>, m: Metadata, t: OptimizedTarget)
    requires |names| == |values| && InRange(names, |dicts.attrNames|)
    requires NoDuplicates(dicts.attrNames) && |dicts.attrNames| < TWO_31 && |dicts.attrValues| < TWO_31
    requires m.attributeNames == Numbered(dicts.attrNames) && m.attributeValues == Numbered(dicts.attrValues)
    requires forall a | a in t.attributes ::
        exists k :: 0 <= k < |names| && names[k] == a && values[k] == t.attributes[a]
    ensures AttrPairs(m, t) <= TextPairs(dicts, names, values) && Functional(AttrPairs(m, t))
  {
    hide Numbered;
    var pairs' := AttrPairs(m, t);
    forall p | p in pairs' ensures p in TextPairs(dicts, names, values) {
      var a :| a in t.attributes && p == (TextOf(m.attributeNames, a), TextOf(m.attributeValues, t.attributes[a]));
      var k :| 0 <= k < |names| && names[k] == a && values[k] == t.attributes[a];
      NumberedIs(dicts.attrNames, a);
      NumberedIs(dicts.attrValues, t.attributes[a]);
      assert p == (TextAt(dicts.attrNames, names[k]), TextAt(dicts.attrValues, values[k]));
    }
    forall p, q | p in pairs' && q in pairs' && p.0 == q.0 ensures p == q {
      var a :| a in t.attributes && p == (TextOf(m.attributeNames, a), TextOf(m.attributeValues, t.attributes[a]));
      var b :| b in t.attributes && q == (TextOf(m.attributeNames, b), TextOf(m.attributeValues, t.attributes[b]));
      NumberedIs(dicts.attrNames, a);
      NumberedIs(dicts.attrNames, b);
      assert dicts.attrNames[a] == dicts.attrNames[b];
    }
  }

  lemma NamesAreKept(dicts: RowDicts, names: seq<int32>, values: seq<int32>, m: Metadata, t: OptimizedTarget)
    requires |names| == |values| && |dicts.attrNames| < TWO_31
    requires m.attributeNames == Numbered(dicts.attrNames)
    requires forall k | 0 <= k < |names| :: names[k] in t.attributes
    ensures forall p | p in TextPairs(dicts, names, values) :: exists q :: q in AttrPairs(m, t) && q.0 == p.0
  {
    hide TextAt, TextOf, Numbered;
    forall p | p in TextPairs(dicts, names, values) ensures exists q :: q in AttrPairs(m, t) && q.0 == p.0 {
      var k :| 0 <= k < |names| && p == (TextAt(dicts.attrNames, names[k]), TextAt(dicts.attrValues, values[k]));
      var a := names[k];
      NumberedIs(dicts.attrNames, a);
      var q := (TextOf(m.attributeNames, a), TextOf(m.attributeValues, t.attributes[a]));
      assert q in AttrPairs(m, t);
    }
  }

  // ---- One node ----

  lemma LabelDecodes(hash: B.Hash, g: TargetGraph, nodes: seq<NodeInfo>, c: Columns, i: nat)
    requires Encodes(hash, g, nodes, c) && i < |nodes|
    ensures Indexable(DecodedOf(c), |nodes|, c.stride)
    ensures DecodedLabel(DecodedOf(c), |nodes|, c.stride, i) == Some(Canonical(nodes[i].name))
    ensures nodes[i].name == TextOf(g.metadata.targetNames, nodes[i].origID)
    ensures nodes[i].origIdx < |g.targets| && g.targets[nodes[i].origIdx].id == nodes[i].origID
  {
    hide RowHolds, DictsHold, HashesHold, BlocksHold, IsNodes, ShortTexts, FlagBytes, DecodeFlags;
    NodesAreTargets(g, nodes);
    assert NodeHolds(g, nodes, c, i);
    assert nodes[i] == InfoOf(g, nodes[i].origIdx);
    NameHolds(g, nodes, c, i);
  }

  lemma NameHolds(g: TargetGraph, nodes: seq<NodeInfo>, c: Columns, i: nat)
    requires Rectangular(c) && i < c.NodeCount() == |nodes| && nodes[i].origIdx < |g.targets|
    requires NodeHolds(g, nodes, c, i)
    ensures 0 <= c.nameIDs[i] < |c.nameDict| && c.nameDict[c.nameIDs[i]] == nodes[i].key.name
  {
    hide DepsHold, TagsHold, AttrsHold, Rectangular;
  }

  lemma LabelsDecode(hash: B.Hash, g: TargetGraph, nodes: seq<NodeInfo>, c: Columns)
    requires Encodes(hash, g, nodes, c)
    ensures Indexable(DecodedOf(c), |nodes|, c.stride) && LabelsKnown(DecodedOf(c), |nodes|, c.stride)
    ensures DecodedLabels(DecodedOf(c), |nodes|, c.stride) == Map(Canonical, NodeLabels(nodes))
  {
    hide Encodes, DecodedLabel, DecodedOf, Canonical, Indexable;
    if |nodes| > 0 {
      LabelDecodes(hash, g, nodes, c, 0);
    } else {
      NoNodes(hash, g, nodes, c);
    }
    forall i | 0 <= i < |nodes|
      ensures DecodedLabel(DecodedOf(c), |nodes|, c.stride, i) == Some(Canonical(NodeLabels(nodes)[i]))
    {
      LabelDecodes(hash, g, nodes, c, i);
    }
  }

  lemma NoNodes(hash: B.Hash, g: TargetGraph, nodes: seq<NodeInfo>, c: Columns)
    requires Encodes(hash, g, nodes, c) && nodes == []
    ensures Indexable(DecodedOf(c), |nodes|, c.stride)
  {
    hide ShortTexts, FlagBytes, DecodeFlags;
  }

  /** Dependencies keep their labels. */
  lemma DepsDecode(hash: B.Hash, g: TargetGraph, nodes: seq<NodeInfo>, c: Columns, t: OptimizedTarget, deps: seq<int32>)
    requires Encodes(hash, g, nodes, c) && |nodes| < TWO_31 && DepsHold(nodes, t, deps)
    ensures multiset(TextsOf(Numbered(Map(Canonical, NodeLabels(nodes))), deps)) ==
            multiset(Map(Canonical, TextsOf(g.metadata.targetNames, t.deps)))
  {
    hide Encodes, Numbered, Canonical;
    var labels, names := Map(Canonical, NodeLabels(nodes)), g.metadata.targetNames;
    NumberedTexts(labels, deps);
    forall k | 0 <= k < |deps| ensures TextAt(labels, deps[k]) == Canonical(TextOf(names, OrigAt(nodes, deps[k]))) {
      LabelDecodes(hash, g, nodes, c, deps[k]);
    }
    assert TextsAt(labels, deps) == Map(Canonical, TextsOf(names, OrigIDs(nodes, deps)));
    MapRearranged((i: int32) => TextOf(names, i), OrigIDs(nodes, deps), t.deps);
    MapRearranged(Canonical, TextsOf(names, OrigIDs(nodes, deps)), TextsOf(names, t.deps));
  }

  /** The hash column gives back what was stored of every hash. */
  lemma HashDecodes(g: TargetGraph, nodes: seq<NodeInfo>, c: Columns, i: nat)
    requires Rectangular(c) && i < c.NodeCount() == |nodes|
    requires (forall k | 0 <= k < |nodes| :: nodes[k].origIdx < |g.targets|)
    requires HashesHold(g, nodes, c) && Indexable(DecodedOf(c), |nodes|, c.stride)
    requires Up(DecodedOf(c).flags.hashEmpty, i) <==> g.targets[nodes[i].origIdx].hash == []
    ensures DecodedHash(DecodedOf(c), |nodes|, c.stride, i) == H.Kept(g.targets[nodes[i].origIdx].hash, c.stride)
  {
    hide Up, Indexable, Rectangular, HexEncode, H.Kept, H.Storable, H.StoredBytes, H.Column, FlagBytes;
    var hashes := HashesOf(g, nodes);
    H.ColumnAt(hashes, c.stride, i);
    NothingKept(c.stride);
    if hashes[i] != [] {
      H.HowAccepted(hashes[i], c.stride);
      H.KeptBytes(hashes[i], c.stride);
    }
  }

  lemma NothingKept(stride: nat)
    ensures H.Kept([], stride) == []
  {
  }

  lemma FlagsDecode(g: TargetGraph, nodes: seq<NodeInfo>, c: Columns, i: nat)
    requires Rectangular(c) && i < c.NodeCount() == |nodes| && nodes[i].origIdx < |g.targets|
    requires NodeHolds(g, nodes, c, i)
    ensures var t, f := g.targets[nodes[i].origIdx], DecodedOf(c).flags;
      (Up(f.root, i) <==> t.root) && (Up(f.external, i) <==> t.external) && (Up(f.hashEmpty, i) <==> t.hash == [])
  {
    hide Up, DecodeFlags, Pack, RowHolds, ShortTexts, ShortLists;
    FlagsRoundTrip(c.roots, c.externals, c.hashEmpties, i);
  }

  lemma TagsDecode(m: Metadata, tagDict: seq<Text>, t: OptimizedTarget, tags: seq<int32>)
    requires TagsHold(m, tagDict, t, tags) && |tagDict| < TWO_31
    ensures multiset(TextsOf(Numbered(tagDict), tags)) == multiset(TextsOf(m.tags, t.tags))
  {
    NumberedTexts(tagDict, tags);
  }

  /** What is decoded of a graph's columns. */
  ghost function DecodedGraph(nodes: seq<NodeInfo>, c: Columns): (g': TargetGraph)
    requires Indexable(DecodedOf(c), |nodes|, c.stride)
    ensures |g'.targets| == |nodes|
  {
    TargetGraph(
      seq(|nodes|, i requires 0 <= i < |nodes| => DecodedTarget(DecodedOf(c), |nodes|, c.stride, i)),
      Metadata(Numbered(Map(Canonical, NodeLabels(nodes))), Numbered(c.ruleTypeDict), Numbered(c.tagDict),
               Numbered(c.attrNameDict),
               Numbered(c.attrValueDict), c.fileHashes))
  }

  lemma GraphDecodes(hash: B.Hash, g: TargetGraph, nodes: seq<NodeInfo>, c: Columns)
    requires Encodes(hash, g, nodes, c)
    ensures Indexable(DecodedOf(c), |nodes|, c.stride)
    ensures GraphOf(DecodedOf(c), |nodes|, c.stride) == Some(DecodedGraph(nodes, c))
  {
    hide Encodes, Indexable, LabelsKnown, Numbered, DecodedLabels, DecodedTarget, FlagBytes;
    LabelsDecode(hash, g, nodes, c);
  }

  lemma DictsAreShort(hash: B.Hash, g: TargetGraph, nodes: seq<NodeInfo>, c: Columns)
    requires Encodes(hash, g, nodes, c)
    ensures |nodes| < TWO_31 && |c.ruleTypeDict| < TWO_31 && |c.tagDict| < TWO_31 && |c.attrNameDict| < TWO_31
    ensures |c.attrValueDict| < TWO_31
    ensures NoDuplicates(c.attrNameDict)
  {
    hide NodeHolds, HashesHold, BlocksHold, IsDict, IsNodes, ShortLists;
    DictDistinct(c.attrNameDict, g.metadata.attributeNames.Values);
  }

  lemma RowParts(hash: B.Hash, g: TargetGraph, nodes: seq<NodeInfo>, c: Columns, i: nat)
    requires Encodes(hash, g, nodes, c) && i < |nodes|
    ensures Rectangular(c) && c.NodeCount() == |nodes| && nodes[i].origIdx < |g.targets| && NodeHolds(g, nodes, c, i)
    ensures i < |c.ruleTypeIDs| && i < |c.deps| && i < |c.tags| && i < |c.attrNames| && i < |c.attrValues|
    ensures var t := g.targets[nodes[i].origIdx];
      && 0 <= c.ruleTypeIDs[i] < |c.ruleTypeDict|
      && c.ruleTypeDict[c.ruleTypeIDs[i]] == TextOf(g.metadata.ruleTypes, t.ruleType)
      && DepsHold(nodes, t, c.deps[i]) && TagsHold(g.metadata, c.tagDict, t, c.tags[i])
      && AttrsHold(g.metadata, DictsOf(c), t, c.attrNames[i], c.attrValues[i])
  {
    hide DepsHold, TagsHold, AttrsHold, DictsHold, HashesHold, BlocksHold, IsNodes, ShortTexts;
  }

  lemma AttrsDecodeAt(hash: B.Hash, g: TargetGraph, nodes: seq<NodeInfo>, c: Columns, i: nat)
    requires Encodes(hash, g, nodes, c) && i < |nodes| && Indexable(DecodedOf(c), |nodes|, c.stride)
    requires nodes[i].origIdx < |g.targets|
    ensures var g' := DecodedGraph(nodes, c);
      SameAttrs(AttrPairs(g.metadata, g.targets[nodes[i].origIdx]), AttrPairs(g'.metadata, g'.targets[i]))
  {
    hide Encodes, DepsHold, TagsHold, Numbered, AttrMap, SameAttrs, AttrPairs, TextPairs, FlagBytes, DecodedHash, Up,
      Indexable, NodeHolds, Rectangular;
    RowParts(hash, g, nodes, c, i);
    DictsAreShort(hash, g, nodes, c);
    AttrsDecode(DictsOf(c), c.attrNames[i], c.attrValues[i], DecodedGraph(nodes, c).metadata,
                DecodedGraph(nodes, c).targets[i]);
  }

  /** Every node decodes to its target. */
  lemma NodeDecodes(hash: B.Hash, g: TargetGraph, nodes: seq<NodeInfo>, c: Columns, i: nat)
    requires Encodes(hash, g, nodes, c) && i < |nodes|
    ensures Indexable(DecodedOf(c), |nodes|, c.stride) && nodes[i].origIdx < |g.targets|
    ensures SameTarget(g, g.targets[nodes[i].origIdx], DecodedGraph(nodes, c), DecodedGraph(nodes, c).targets[i],
        c.stride)
  {
    hide Encodes, Numbered, TextsOf, AttrPairs, SameAttrs, Canonical, H.Kept, DecodedHash, Up, DepsHold, TagsHold,
      AttrsHold, NodeHolds,
      HashesHold, Indexable, FlagBytes, DecodeFlags, Rectangular, NoDuplicates, AttrMap;
    RowParts(hash, g, nodes, c, i);
    var t := g.targets[nodes[i].origIdx];
    GraphDecodes(hash, g, nodes, c);
    DictsAreShort(hash, g, nodes, c);
    LabelDecodes(hash, g, nodes, c, i);
    NumberedIs(Map(Canonical, NodeLabels(nodes)), i);
    FlagsDecode(g, nodes, c, i);
    HashesAreHeld(hash, g, nodes, c);
    HashDecodes(g, nodes, c, i);
    NumberedIs(c.ruleTypeDict, c.ruleTypeIDs[i]);
    DepsDecode(hash, g, nodes, c, t, c.deps[i]);
    TagsDecode(g.metadata, c.tagDict, t, c.tags[i]);
    AttrsDecodeAt(hash, g, nodes, c, i);
    NodeIs(g, nodes, c, i);
  }

  lemma HashesAreHeld(hash: B.Hash, g: TargetGraph, nodes: seq<NodeInfo>, c: Columns)
    requires Encodes(hash, g, nodes, c)
    ensures (forall k | 0 <= k < |nodes| :: nodes[k].origIdx < |g.targets|) && HashesHold(g, nodes, c)
  {
    hide HashesHold;
  }

  /** The decoded target, field by field. */
  lemma NodeIs(g: TargetGraph, nodes: seq<NodeInfo>, c: Columns, i: nat)
    requires i < |nodes| < TWO_31 && Indexable(DecodedOf(c), |nodes|, c.stride)
    ensures var t', d, n := DecodedGraph(nodes, c).targets[i], DecodedOf(c), |nodes|;
      && t'.id == i && t'.hash == DecodedHash(d, n, c.stride, i) && t'.deps == d.deps[i]
      && t'.ruleType == d.ruleTypeIDs[i] && t'.tags == d.tags[i]
      && (t'.root <==> Up(d.flags.root, i)) && (t'.external <==> Up(d.flags.external, i))
  {
    hide DecodedHash, Up, FlagBytes, DecodeFlags, Numbered, AttrMap;
  }

  // ---- The whole graph ----

  lemma AllRestored(hash: B.Hash, g: TargetGraph, nodes: seq<NodeInfo>, c: Columns)
    requires Encodes(hash, g, nodes, c)
    ensures GraphOf(DecodedOf(c), |nodes|, c.stride).Some?
    ensures Restored(g, nodes, GraphOf(DecodedOf(c), |nodes|, c.stride).value, c.stride)
  {
    hide Encodes, SameTarget, GraphOf, Indexable, DecodedOf, DecodedTarget;
    GraphDecodes(hash, g, nodes, c);
    NodesListTargets(hash, g, nodes, c);
    forall i | 0 <= i < |nodes|
      ensures nodes[i].origIdx < |g.targets|
      ensures SameTarget(g, g.targets[nodes[i].origIdx], DecodedGraph(nodes, c), DecodedGraph(nodes, c).targets[i],
          c.stride)
    {
      NodeDecodes(hash, g, nodes, c, i);
    }
  }

  lemma NodesListTargets(hash: B.Hash, g: TargetGraph, nodes: seq<NodeInfo>, c: Columns)
    requires Encodes(hash, g, nodes, c)
    ensures |nodes| == |g.targets| && c.fileHashes == g.metadata.fileHashes && c.NodeCount() == |nodes| < TWO_31
    ensures Rectangular(c)
    ensures forall i, j | 0 <= i < j < |nodes| :: nodes[i].origIdx != nodes[j].origIdx
  {
    hide IsNodes, DictsHold, HashesHold, BlocksHold, NodeHolds, ShortTexts, ShortLists;
    NodesAreTargets(g, nodes);
  }

  /** A written graph decodes exactly when the file and its dictionaries are
      within the reader's limits, and then it is the graph that was encoded. */
  lemma DecodeUndoesEncode(z: Codec, hash: B.Hash, g: TargetGraph, nodes: seq<NodeInfo>, c: Columns)
    requires Lossless(z) && Encodes(hash, g, nodes, c) && Addressable(z, c)
    ensures DecodeBlob(z, GraphFile(z, c)).Some? <==> Opens(z, c) && DictsFit(c)
    ensures DecodeBlob(z, GraphFile(z, c)).Some? ==> Restored(g, nodes, DecodeBlob(z, GraphFile(z, c)).value, c.stride)
  {
    hide Lossless, Encodes, Addressable, Open, DecodeColumns, GraphFile, Opens, DictsFit, DecodedOf, GraphOf, Restored,
      Rectangular;
    NodesListTargets(hash, g, nodes, c);
    GraphFileRoundTrip(z, c);
    AllRestored(hash, g, nodes, c);
  }

  /** `Encode`: the file of exactly the graphs the encoder accepts. */
  method Encode(z: Codec, hash: B.Hash, g: TargetGraph, o: Options, shards: nat, depth: nat)
    returns (data: Option<Text>, ghost nodes: seq<NodeInfo>, ghost c: Columns)
    requires Representable(g) && shards > 0
    ensures data.Some? <==> OptionsValid(FillDefaults(o)) && Encodable(g, FillDefaults(o).hashBytes)
    ensures data.Some? ==>
      Encodes(hash, g, nodes, c) && c.stride == FillDefaults(o).hashBytes && data.value == GraphFile(z, c)
  {
    hide Representable, Encodable, Encodes, GraphFile, Rectangular;
    var cols;
    cols, nodes := EncodeColumns(hash, g, o, depth);
    c := if cols.Some? then cols.value else EMPTY;
    if cols.None? {
      return None, nodes, c;
    }
    NodesListTargets(hash, g, nodes, cols.value);
    var shardLen := L.ShardLen(cols.value.NodeCount(), shards);
    var written := WriteGraph(z, cols.value, if shardLen == 0 then 1 else shardLen);
    data := Some(written);
  }

  ghost const EMPTY := Columns(8, 1, [], [], [], [], [], [], [], [], [], [], [], [], [], [], [], [], [], [], [], map[])

  /** Labels come back as they were exactly when none has its last colon first. */
  lemma CanonicalIs(name: Text)
    ensures Canonical(name) == name <==> LastColon(name) != 0
  {
    JoinSplit(name);
  }

  /** The label ":a" comes back as "a". */
  lemma LeadingColonIsLost()
    ensures Canonical([COLON, 97]) == [97]
  {
    assert LastColon([COLON, 97]) == 0;
  }

  /** A full-width hash in lower case comes back as it was, and so does the empty
      one; what is longer is cut. */
  lemma HashesComeBack(b: Text, stride: nat)
    requires stride > 0 && |b| >= stride
    ensures H.Kept([], stride) == [] && H.Kept(HexEncode(b), stride) == HexEncode(b[..stride])
  {
    H.UnhexOfHex(b);
    H.HexDigits(b);
    H.UnhexPrefix(HexEncode(b), stride);
    H.HexOfUnhex(HexEncode(b)[..2 * stride]);
  }

  // ---- An attribute that does not come back ----

  const TWICE_NAMED := OptimizedTarget(1, [], [], 0, [], false, false, map[0 := 0, 1 := 1])

  /** A target with two attributes whose numbers stand for one name. */
  function TwoForOneName(): TargetGraph {
    TargetGraph([TWICE_NAMED],
                Metadata(map[1 := [97]], map[0 := LIBRARY], map[], map[0 := [110], 1 := [110]],
                         map[0 := [120], 1 := [121]], map[]))
  }

  /** The encoder accepts the graph. */
  lemma TwoForOneNameIsEncodable(g: TargetGraph)
    requires g == TwoForOneName()
    ensures Encodable(g, 8)
  {
    assert g.targets == [TWICE_NAMED];
  }

  lemma AttrsRestored(g: TargetGraph, nodes: seq<NodeInfo>, g': TargetGraph, stride: nat)
    requires |g.targets| == 1 && Restored(g, nodes, g', stride)
    ensures |g'.targets| == 1
    ensures SameAttrs(AttrPairs(g.metadata, g.targets[0]), AttrPairs(g'.metadata, g'.targets[0]))
  {
    hide AttrPairs, SameAttrs, Canonical, TextOf, TextsOf;
    assert nodes[0].origIdx == 0;
  }

  /** Whatever its file is decoded to lacks one of the target's two pairs. */
  lemma RepeatedNameLosesPair(g: TargetGraph, nodes: seq<NodeInfo>, g': TargetGraph)
    requires g == TwoForOneName() && Restored(g, nodes, g', 8)
    ensures |g'.targets| == 1
    ensures var kept, all := AttrPairs(g'.metadata, g'.targets[0]), AttrPairs(g.metadata, TWICE_NAMED);
      kept <= all && kept != all
  {
    hide AttrPairs, Functional, Restored;
    TwoPairs(g.metadata);
    AttrsRestored(g, nodes, g', 8);
  }

  lemma TwoPairs(m: Metadata)
    requires m == TwoForOneName().metadata
    ensures !Functional(AttrPairs(m, TWICE_NAMED))
  {
    var pairs := AttrPairs(m, TWICE_NAMED);
    var n: Text, x: Text, y: Text := [110], [120], [121];
    assert x[0] != y[0];
    assert 0 in TWICE_NAMED.attributes && 1 in TWICE_NAMED.attributes;
    assert (n, x) in pairs && (n, y) in pairs;
  }
}
