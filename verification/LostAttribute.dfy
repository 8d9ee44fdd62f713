/** A graph whose file decodes, under every codec, with an attribute missing. */
module LostAttribute {
  import opened Wrappers
  import opened ByteStrings
  import opened Varint
  import opened Entity
  import opened Interning
  import opened Dict
  import opened Blob
  import opened Snapshot
  import opened GraphNodes
  import opened GraphColumns
  import opened GraphEncode
  import opened GraphDecode
  import opened GraphRoundTrip
  import opened SmallFiles
  import GraphRows
  import FlagColumn
  import H = HashColumn
  import B = Blocks

  /** The graph's columns: both attributes stand under the one name. */
  function TwoForOneColumns(hash: B.Hash): Columns {
    Columns(8, 1, [[]], [[97]], [0], [0], Zeros(8), [[]], [0], [LIBRARY], [[]], [], [[0, 0]], [[0, 1]], [[110]],
            [[120], [121]], [false], [false], [true], [hash([97, 0])], [0], map[])
  }

  lemma IsRectangular(hash: B.Hash)
    ensures Rectangular(TwoForOneColumns(hash))
  {
  }

  lemma OnlyNode(g: TargetGraph)
    requires g == TwoForOneName()
    ensures AllNamed(g) && Infos(g) == [NodeInfo([97], Key([], [97]), 0, 1)] && IsNodes(g, Infos(g))
  {
    assert g.targets == [TWICE_NAMED] && SplitLabel([97]) == Key([], [97]);
  }

  lemma DictsAreHeld(hash: B.Hash, g: TargetGraph)
    requires g == TwoForOneName() && AllNamed(g)
    ensures DictsHold(g, Infos(g), TwoForOneColumns(hash))
  {
    OnlyNode(g);
    var nodes, m := Infos(g), g.metadata;
    assert Pkgs(nodes) == [[]] && Names(nodes) == [[97]];
    NameValues(m);
  }

  lemma NameValues(m: Metadata)
    requires m == TwoForOneName().metadata
    ensures m.attributeNames.Values == {[110]} && m.attributeValues.Values == {[120], [121]}
    ensures m.ruleTypes.Values == {LIBRARY} && m.tags.Values == {}
  {
    assert 0 in m.ruleTypes;
    assert 0 in m.attributeNames && 0 in m.attributeValues && 1 in m.attributeValues;
  }

  lemma BlocksAreHeld(hash: B.Hash, nodes: seq<NodeInfo>)
    requires NodeLabels(nodes) == [[97]]
    ensures BlocksHold(hash, nodes, TwoForOneColumns(hash))
  {
    assert B.Stream([[97]]) == [97, 0];
    assert [[97]][0..1] == [[97]];
  }

  lemma HashIsHeld(hash: B.Hash, g: TargetGraph, nodes: seq<NodeInfo>)
    requires g == TwoForOneName() && |nodes| == 1 && nodes[0].origIdx == 0
    ensures HashesHold(g, nodes, TwoForOneColumns(hash))
  {
    var hashes: seq<Text> := [[]];
    assert HashesOf(g, nodes) == hashes && hashes[..0] == [];
    assert H.Column(hashes, 8) == [] + Zeros(8);
  }

  /** The row's two pairs of numbers stand for the target's two pairs of texts. */
  lemma PairsAreHeld(hash: B.Hash, m: Metadata)
    requires m == TwoForOneName().metadata
    ensures GraphRows.TextPairs(DictsOf(TwoForOneColumns(hash)), [0, 0], [0, 1]) ==
            GraphRows.AttrPairs(m, TWICE_NAMED)
  {
    var n: Text, x: Text, y: Text := [110], [120], [121];
    var dicts := DictsOf(TwoForOneColumns(hash));
    var names: seq<int32>, values: seq<int32> := [0, 0], [0, 1];
    assert GraphRows.TextPairs(dicts, names, values) == {(n, x), (n, y)} by {
      assert names[0] == names[1] == 0 && values[0] == 0 && values[1] == 1;
    }
    assert GraphRows.AttrPairs(m, TWICE_NAMED) == {(n, x), (n, y)} by {
      assert 0 in TWICE_NAMED.attributes && 1 in TWICE_NAMED.attributes;
    }
  }

  lemma RowIsHeld(hash: B.Hash, g: TargetGraph)
    requires g == TwoForOneName() && AllNamed(g) && Rectangular(TwoForOneColumns(hash))
    ensures |Infos(g)| == 1 && Infos(g)[0].origIdx == 0 && NodeHolds(g, Infos(g), TwoForOneColumns(hash), 0)
  {
    OnlyNode(g);
    PairsAreHeld(hash, g.metadata);
    hide Rectangular, GraphRows.TextPairs, GraphRows.AttrPairs;
    assert multiset(GraphRows.OrigIDs(Infos(g), [])) == multiset{};
    assert GraphRows.TextsAt([], []) == [] && GraphRows.TextsOf(g.metadata.tags, []) == [];
  }

  lemma IsEncoded(hash: B.Hash, g: TargetGraph)
    requires g == TwoForOneName()
    ensures AllNamed(g) && Encodes(hash, g, Infos(g), TwoForOneColumns(hash))
  {
    hide Rectangular, IsNodes, DictsHold, HashesHold, BlocksHold, NodeHolds;
    IsRectangular(hash);
    OnlyNode(g);
    DictsAreHeld(hash, g);
    HashIsHeld(hash, g, Infos(g));
    BlocksAreHeld(hash, Infos(g));
    RowIsHeld(hash, g);
    assert TwoForOneColumns(hash).NodeCount() == 1;
  }

  lemma TextsAreSmall(x: Text, y: Text)
    ensures TotalBytes([]) == 0 && TotalBytes([x]) == |x| && TotalBytes([x, y]) == |x| + |y|
  {
    assert [x][1..] == [] && [x, y][1..] == [y] && [y][1..] == [];
    assert TotalBytes([y]) == |y|;
  }

  lemma ListsAreSmall(list: seq<int32>)
    ensures TotalLength([list]) == |list|
  {
    assert [list][1..] == [];
  }

  lemma IsSmall(hash: B.Hash)
    ensures Small(TwoForOneColumns(hash))
  {
    var c := TwoForOneColumns(hash);
    TextsAreSmall([], []);
    TextsAreSmall([97], []);
    TextsAreSmall(LIBRARY, []);
    TextsAreSmall([110], []);
    TextsAreSmall([120], [121]);
    ListsAreSmall([]);
    ListsAreSmall([0, 0]);
    ListsAreSmall([0, 1]);
    hide TotalBytes, TotalLength, ColumnBytes;
    forall id: nat | 0 < id <= 22 && id != 21 ensures ColumnBound(c, id) <= SMALL {
    }
  }

  /** Under every codec the graph's file decodes, and the one target it decodes to
      lacks one of the two attributes. */
  lemma AttributeIsLost(z: Codec, hash: B.Hash, g: TargetGraph)
    requires g == TwoForOneName() && Lossless(z) && Addressable(z, TwoForOneColumns(hash))
    ensures AllNamed(g) && Encodes(hash, g, Infos(g), TwoForOneColumns(hash))
    ensures var r := DecodeBlob(z, GraphFile(z, TwoForOneColumns(hash)));
      && r.Some? && |r.value.targets| == 1
      && var kept, all := GraphRows.AttrPairs(r.value.metadata, r.value.targets[0]),
                          GraphRows.AttrPairs(g.metadata, g.targets[0]);
         kept <= all && kept != all
  {
    hide Lossless, Addressable, Encodes, GraphFile, DecodeBlob, Opens, DictsFit, Small, Rectangular, Restored,
      GraphRows.AttrPairs;
    var c := TwoForOneColumns(hash);
    IsEncoded(hash, g);
    IsRectangular(hash);
    IsSmall(hash);
    SmallIsAccepted(z, c);
    DecodeUndoesEncode(z, hash, g, Infos(g), c);
    RepeatedNameLosesPair(g, Infos(g), DecodeBlob(z, GraphFile(z, c)).value);
  }

  /** There is such a codec. */
  lemma PlainCodecDecodes(hash: B.Hash)
    ensures Lossless(PLAIN) && Addressable(PLAIN, TwoForOneColumns(hash))
  {
    PlainIsLossless();
    IsRectangular(hash);
    IsSmall(hash);
    PlainIsAddressable(TwoForOneColumns(hash));
  }
}
