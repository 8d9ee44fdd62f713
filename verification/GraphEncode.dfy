/** From a graph to its columns. */
module GraphEncode {
  import opened Wrappers
  import opened ByteStrings
  import opened Varint
  import opened Entity
  import opened Sorting
  import opened Interning
  import opened Container
  import opened Blob
  import opened GraphNodes
  import opened GraphRows
  import opened GraphColumns
  import H = HashColumn
  import B = Blocks
  import StringMap

  datatype Options = Options(hashBytes: nat, blockSize: nat)

  /** Zero means the default. */
  function FillDefaults(o: Options): Options {
    Options(if o.hashBytes == 0 then 8 else o.hashBytes, if o.blockSize == 0 then 512 else o.blockSize)
  }

  predicate OptionsValid(o: Options) {
    StrideKnown(o.hashBytes) && 0 < o.blockSize < TWO_63 && IsPowerOfTwo(o.blockSize)
  }

  /** A dependency is found when a target carries its number; a negative number,
      only if some target's number is too large for the indexed table. */
  predicate Resolvable(g: TargetGraph, id: int32) {
    && (exists t :: t in g.targets && t.id == id)
    && (id >= 0 || exists t :: t in g.targets && t.id >= 2 * |g.targets| + 16)
  }

  /** The encoder accepts a target: every number it uses stands for something,
      and its hash can be stored. */
  predicate Acceptable(g: TargetGraph, t: OptimizedTarget, stride: nat) {
    && t.ruleType in g.metadata.ruleTypes
    && (forall d | d in t.deps :: Resolvable(g, d))
    && (forall x | x in t.tags :: x in g.metadata.tags)
    && (forall a | a in t.attributes :: a in g.metadata.attributeNames && t.attributes[a] in g.metadata.attributeValues)
    && H.Accepted(t.hash, stride)
  }

  predicate Encodable(g: TargetGraph, stride: nat) {
    AllNamed(g) && forall t | t in g.targets :: Acceptable(g, t, stride)
  }

  predicate ShortValues(m: map<int32, Text>) {
    |m.Values| < TWO_31 && forall k | k in m :: |m[k]| < TWO_63
  }

  /** Counts fit 32-bit numbers and strings fit memory. */
  predicate Representable(g: TargetGraph) {
    && |g.targets| < TWO_31
    && (forall t | t in g.targets :: |t.deps| < TWO_31 && |t.tags| < TWO_31 && |t.attributes| < TWO_31)
    && (forall k | k in g.metadata.targetNames :: |g.metadata.targetNames[k]| < TWO_63)
    && ShortValues(g.metadata.ruleTypes) && ShortValues(g.metadata.tags)
    && ShortValues(g.metadata.attributeNames) && ShortValues(g.metadata.attributeValues)
    && |g.metadata.fileHashes| < TWO_63
    && forall k | k in g.metadata.fileHashes :: |k| < TWO_63 && |g.metadata.fileHashes[k]| < TWO_63
  }

  // ---- Resolving, whatever the order of the nodes ----

  lemma {:induction false} MaxReached(nodes: seq<NodeInfo>, n: nat)
    requires n <= |nodes|
    ensures MaxID(nodes, n) == 0 || exists k :: 0 <= k < n && nodes[k].origID == MaxID(nodes, n)
  {
    if n > 0 {
      MaxReached(nodes, n - 1);
    }
  }

  lemma NodeIDs(g: TargetGraph, nodes: seq<NodeInfo>, id: int32)
    requires IsNodes(g, nodes)
    ensures (exists k :: 0 <= k < |nodes| && nodes[k].origID == id) <==> exists t :: t in g.targets && t.id == id
  {
    NodesAreTargets(g, nodes);
    SameElements(nodes, Infos(g));
    if k :| 0 <= k < |nodes| && nodes[k].origID == id {
      assert g.targets[nodes[k].origIdx] in g.targets;
    }
    if t :| t in g.targets && t.id == id {
      var i :| 0 <= i < |g.targets| && g.targets[i] == t;
      assert Infos(g)[i] in nodes;
      var k :| 0 <= k < |nodes| && nodes[k] == Infos(g)[i];
    }
  }

  lemma DenseIs(g: TargetGraph, nodes: seq<NodeInfo>)
    requires IsNodes(g, nodes)
    ensures Dense(nodes) <==> !exists t :: t in g.targets && t.id >= 2 * |g.targets| + 16
  {
    hide MaxID, IsNodes;
    NodesAreTargets(g, nodes);
    MaxReached(nodes, |nodes|);
    if t :| t in g.targets && t.id >= 2 * |g.targets| + 16 {
      NodeIDs(g, nodes, t.id);
    }
    if !Dense(nodes) {
      var k :| 0 <= k < |nodes| && nodes[k].origID == MaxID(nodes, |nodes|);
      NodeIDs(g, nodes, nodes[k].origID);
    }
  }

  lemma ResolveIs(g: TargetGraph, nodes: seq<NodeInfo>, id: int32)
    requires IsNodes(g, nodes)
    ensures Resolve(nodes, id).Some? <==> Resolvable(g, id)
  {
    hide IsNodes, Dense, LastWith;
    NodeIDs(g, nodes, id);
    DenseIs(g, nodes);
  }

  const LIBRARY: Text := [108, 105, 98]

  function Dependent(id: int32, deps: seq<int32>): OptimizedTarget {
    OptimizedTarget(id, [], deps, 0, [], false, false, map[])
  }

  /** Target 1 depends on target -1, which is there. */
  function NegativeDependency(): TargetGraph {
    TargetGraph([Dependent(-1, []), Dependent(1, [-1])],
                Metadata(map[-1 := [97], 1 := [98]], map[0 := LIBRARY], map[], map[], map[], map[]))
  }

  /** The graph is refused, with its dependency reported missing; with a target
      numbered far enough away it would be accepted. */
  lemma NegativeNumberIsRefused(g: TargetGraph)
    requires g == NegativeDependency()
    ensures AllNamed(g) && (forall t, d | t in g.targets && d in t.deps :: exists u :: u in g.targets && u.id == d)
    ensures !Encodable(g, 8)
    ensures var names := g.metadata.targetNames[40 := [99]];
      Encodable(TargetGraph(g.targets + [Dependent(40, [])], g.metadata.(targetNames := names)), 8)
  {
    DenseIsRefused();
    SparseIsAccepted();
    hide *;
  }

  lemma DenseIsRefused()
    ensures var g := NegativeDependency();
      && AllNamed(g) && (forall t, d | t in g.targets && d in t.deps :: exists u :: u in g.targets && u.id == d)
      && !Encodable(g, 8)
  {
    var g, low, high := NegativeDependency(), Dependent(-1, []), Dependent(1, [-1]);
    assert g.targets[0] == low && g.targets[1] == high && high.deps[0] == -1;
    assert !Resolvable(g, -1);
  }

  lemma SparseIsAccepted()
    ensures var g := NegativeDependency();
      Encodable(TargetGraph(g.targets + [Dependent(40, [])],
                            g.metadata.(targetNames := g.metadata.targetNames[40 := [99]])), 8)
  {
    var g, far := NegativeDependency(), Dependent(40, []);
    var low, high := g.targets[0], g.targets[1];
    var g' := TargetGraph(g.targets + [far], g.metadata.(targetNames := g.metadata.targetNames[40 := [99]]));
    assert g'.targets == [low, high, far];
    assert low in g'.targets && far in g'.targets && far.id >= 2 * |g'.targets| + 16;
    assert Resolvable(g', -1);
  }

  // ---- What the columns say ----

  function DictsOf(c: Columns): RowDicts {
    RowDicts(c.nameDict, c.ruleTypeDict, c.tagDict, c.attrNameDict, c.attrValueDict)
  }

  function RowAt(c: Columns, i: nat): Row
    requires Rectangular(c) && i < c.NodeCount()
  {
    Row(c.nameIDs[i], c.ruleTypeIDs[i], c.deps[i], c.tags[i], c.attrNames[i], c.attrValues[i])
  }

  /** Node `i` of the columns is its target. */
  ghost predicate NodeHolds(g: TargetGraph, nodes: seq<NodeInfo>, c: Columns, i: nat)
    requires Rectangular(c) && i < c.NodeCount() == |nodes| && nodes[i].origIdx < |g.targets|
  {
    var t := g.targets[nodes[i].origIdx];
    && RowHolds(g.metadata, nodes, DictsOf(c), nodes[i].key.name, t, RowAt(c, i))
    && 0 <= c.pkgIDs[i] < |c.pkgDict| && c.pkgDict[c.pkgIDs[i]] == nodes[i].key.pkg
    && c.roots[i] == t.root && c.externals[i] == t.external && c.hashEmpties[i] == (t.hash == [])
  }

  function HashesOf(g: TargetGraph, nodes: seq<NodeInfo>): (hashes: seq<Text>)
    requires forall i | 0 <= i < |nodes| :: nodes[i].origIdx < |g.targets|
    ensures |hashes| == |nodes|
  {
    seq(|nodes|, i requires 0 <= i < |nodes| => g.targets[nodes[i].origIdx].hash)
  }

  function Numbers(starts: seq<nat>): seq<int32> {
    seq(|starts|, k requires 0 <= k < |starts| => Int32(starts[k]))
  }

  ghost predicate DictsHold(g: TargetGraph, nodes: seq<NodeInfo>, c: Columns) {
    && IsDict(c.pkgDict, set p | p in Pkgs(nodes)) && IsDict(c.nameDict, set s | s in Names(nodes))
    && IsDict(c.ruleTypeDict, g.metadata.ruleTypes.Values) && IsDict(c.tagDict, g.metadata.tags.Values)
    && IsDict(c.attrNameDict, g.metadata.attributeNames.Values)
    && IsDict(c.attrValueDict, g.metadata.attributeValues.Values)
  }

  ghost predicate BlocksHold(hash: B.Hash, nodes: seq<NodeInfo>, c: Columns) {
    && c.blockSize > 0
    && c.blockStarts == Numbers(B.Starts(hash, c.blockSize, NodeLabels(nodes), 0))
    && c.blockDigests == B.Digests(hash, c.blockSize, NodeLabels(nodes), 0)
  }

  ghost predicate HashesHold(g: TargetGraph, nodes: seq<NodeInfo>, c: Columns)
    requires forall i | 0 <= i < |nodes| :: nodes[i].origIdx < |g.targets|
  {
    (forall h | h in HashesOf(g, nodes) :: H.Accepted(h, c.stride)) &&
    c.hashes == H.Column(HashesOf(g, nodes), c.stride)
  }

  /** `c` is the graph in columns, its targets in the order of `nodes`. */
  ghost predicate Encodes(hash: B.Hash, g: TargetGraph, nodes: seq<NodeInfo>, c: Columns) {
    && IsNodes(g, nodes) && Rectangular(c) && c.NodeCount() == |nodes| && c.fileHashes == g.metadata.fileHashes
    && (forall i | 0 <= i < |nodes| :: nodes[i].origIdx < |g.targets|)
    && DictsHold(g, nodes, c) && HashesHold(g, nodes, c) && BlocksHold(hash, nodes, c)
    && forall i | 0 <= i < |nodes| :: NodeHolds(g, nodes, c, i)
  }

  // ---- Encoding ----

  lemma DictShort(dict: seq<Text>, m: map<int32, Text>)
    requires IsDict(dict, m.Values) && ShortValues(m)
    ensures ShortTexts(dict)
  {
    StringMap.DictSize(dict, m.Values);
    forall k | 0 <= k < |dict| ensures |dict[k]| < TWO_63 {
      assert dict[k] in dict && dict[k] in m.Values;
    }
  }

  lemma {:induction false} FewTexts(texts: seq<Text>)
    ensures |set s | s in texts| <= |texts|
  {
    if texts == [] {
      assert (set s | s in texts) == {};
    } else {
      var n := |texts| - 1;
      FewTexts(texts[..n]);
      assert texts == texts[..n] + [texts[n]];
      assert (set s | s in texts) == (set s | s in texts[..n]) + {texts[n]};
    }
  }

  lemma DictOfTexts(dict: seq<Text>, texts: seq<Text>)
    requires IsDict(dict, set s | s in texts) && |texts| < TWO_31 && forall k | 0 <= k < |texts| :: |texts[k]| < TWO_63
    ensures ShortTexts(dict)
  {
    StringMap.DictSize(dict, set s | s in texts);
    FewTexts(texts);
    forall k | 0 <= k < |dict| ensures |dict[k]| < TWO_63 {
      assert dict[k] in dict && dict[k] in texts;
    }
  }

  lemma PartsShort(g: TargetGraph, nodes: seq<NodeInfo>)
    requires IsNodes(g, nodes) && Representable(g)
    ensures |nodes| == |g.targets|
    ensures forall i | 0 <= i < |nodes| :: |nodes[i].key.pkg| < TWO_63 && |nodes[i].key.name| < TWO_63
    ensures forall i | 0 <= i < |nodes| :: nodes[i].origIdx < |g.targets|
  {
    NodesAreTargets(g, nodes);
    forall i | 0 <= i < |nodes| ensures |nodes[i].key.pkg| < TWO_63 && |nodes[i].key.name| < TWO_63 {
      assert nodes[i] == InfoOf(g, nodes[i].origIdx);
      assert |nodes[i].name| < TWO_63;
    }
  }

  /** The dictionaries and everything looked up in them. */
  method BuildTables(meta: Metadata, nodes: seq<NodeInfo>, dicts: RowDicts) returns (tables: Tables)
    requires |nodes| < TWO_31 && |dicts.names| < TWO_31 && NoDuplicates(dicts.names)
    requires IsDict(dicts.ruleTypes, meta.ruleTypes.Values) && |dicts.ruleTypes| < TWO_31
    requires IsDict(dicts.tags, meta.tags.Values) && |dicts.tags| < TWO_31
    requires IsDict(dicts.attrNames, meta.attributeNames.Values) && |dicts.attrNames| < TWO_31
    requires IsDict(dicts.attrValues, meta.attributeValues.Values) && |dicts.attrValues| < TWO_31
    ensures TablesHold(meta, nodes, dicts, tables)
  {
    hide IsDict, Resolve;
    var names := BuildStrIndex(dicts.names);
    var ruleTypes := RemapTable(meta.ruleTypes, dicts.ruleTypes);
    var tags := RemapTable(meta.tags, dicts.tags);
    var attrNames := RemapTable(meta.attributeNames, dicts.attrNames);
    var attrValues := RemapTable(meta.attributeValues, dicts.attrValues);
    var index := BuildIdIndex(nodes);
    tables := Tables(names, ruleTypes, tags, attrNames, attrValues, index);
  }

  method BuildRows(g: TargetGraph, nodes: seq<NodeInfo>, dicts: RowDicts, tables: Tables)
    returns (rows: Option<seq<Row>>)
    requires TablesHold(g.metadata, nodes, dicts, tables) && IsDict(dicts.names, set s | s in Names(nodes))
    requires forall i | 0 <= i < |nodes| :: nodes[i].origIdx < |g.targets|
    ensures rows.Some? <==> forall i | 0 <= i < |nodes| :: Mapped(g.metadata, nodes, g.targets[nodes[i].origIdx])
    ensures rows.Some? ==> |rows.value| == |nodes|
    ensures rows.Some? ==> forall i | 0 <= i < |nodes| :: var t, row := g.targets[nodes[i].origIdx], rows.value[i];
      RowHolds(g.metadata, nodes, dicts, nodes[i].key.name, t, row) && |row.deps| == |t.deps| && |row.tags| == |t.tags|
  {
    hide TablesHold, RowHolds, Mapped;
    var out: seq<Row> := [];
    for i := 0 to |nodes|
      invariant |out| == i
      invariant forall k | 0 <= k < i :: var t := g.targets[nodes[k].origIdx];
        Mapped(g.metadata, nodes, t) && RowHolds(g.metadata, nodes, dicts, nodes[k].key.name, t, out[k])
        && |out[k].deps| == |t.deps| && |out[k].tags| == |t.tags|
    {
      assert Names(nodes)[i] == nodes[i].key.name;
      var row := ResolveRow(g.metadata, nodes, dicts, tables, nodes[i].key.name, g.targets[nodes[i].origIdx]);
      if row.None? {
        return None;
      }
      out := out + [row.value];
    }
    rows := Some(out);
  }

  /** What the encoder has worked out before it writes. */
  datatype Work = Work(
    nodes: seq<NodeInfo>, rows: seq<Row>, dicts: RowDicts, pkgDict: seq<Text>, pkgIDs: seq<int32>, hashes: Text,
    starts: seq<nat>, digests: seq<uint64>, stride: uint16, blockSize: uint64)

  predicate InGraph(g: TargetGraph, nodes: seq<NodeInfo>) {
    forall i | 0 <= i < |nodes| :: nodes[i].origIdx < |g.targets|
  }

  function TargetAt(g: TargetGraph, nodes: seq<NodeInfo>, i: nat): OptimizedTarget
    requires InGraph(g, nodes) && i < |nodes|
  {
    g.targets[nodes[i].origIdx]
  }

  function Assemble(g: TargetGraph, w: Work): Columns
    requires InGraph(g, w.nodes) && |w.rows| == |w.nodes|
  {
    var n := |w.nodes|;
    Columns(w.stride, w.blockSize, w.pkgDict, w.dicts.names, w.pkgIDs,
            seq(n, i requires 0 <= i < n => w.rows[i].nameID), w.hashes,
            seq(n, i requires 0 <= i < n => w.rows[i].deps),
            seq(n, i requires 0 <= i < n => w.rows[i].ruleTypeID), w.dicts.ruleTypes,
            seq(n, i requires 0 <= i < n => w.rows[i].tags), w.dicts.tags,
            seq(n, i requires 0 <= i < n => w.rows[i].attrNames), seq(n, i requires 0 <= i < n => w.rows[i].attrValues),
            w.dicts.attrNames, w.dicts.attrValues,
            seq(n, i requires 0 <= i < n => TargetAt(g, w.nodes, i).root),
            seq(n, i requires 0 <= i < n => TargetAt(g, w.nodes, i).external),
            seq(n, i requires 0 <= i < n => TargetAt(g, w.nodes, i).hash == []),
            w.digests, Numbers(w.starts), g.metadata.fileHashes)
  }

  ghost predicate RowsHold(g: TargetGraph, w: Work)
    requires InGraph(g, w.nodes)
  {
    && |w.rows| == |w.nodes|
    && forall i | 0 <= i < |w.nodes| ::
      && RowHolds(g.metadata, w.nodes, w.dicts, w.nodes[i].key.name, TargetAt(g, w.nodes, i), w.rows[i])
      && |w.rows[i].deps| == |TargetAt(g, w.nodes, i).deps| && |w.rows[i].tags| == |TargetAt(g, w.nodes, i).tags|
  }

  ghost predicate DictsWork(g: TargetGraph, w: Work) {
    && IsDict(w.pkgDict, set p | p in Pkgs(w.nodes)) && IsDict(w.dicts.names, set s | s in Names(w.nodes))
    && IsDict(w.dicts.ruleTypes, g.metadata.ruleTypes.Values) && IsDict(w.dicts.tags, g.metadata.tags.Values)
    && IsDict(w.dicts.attrNames, g.metadata.attributeNames.Values)
    && IsDict(w.dicts.attrValues, g.metadata.attributeValues.Values)
    && |w.pkgIDs| == |w.nodes|
    && forall i | 0 <= i < |w.nodes| :: 0 <= w.pkgIDs[i] < |w.pkgDict| && w.pkgDict[w.pkgIDs[i]] == w.nodes[i].key.pkg
  }

  ghost predicate WorkDone(hash: B.Hash, g: TargetGraph, w: Work) {
    && IsNodes(g, w.nodes) && InGraph(g, w.nodes) && RowsHold(g, w) && DictsWork(g, w)
    && (forall h | h in HashesOf(g, w.nodes) :: H.Accepted(h, w.stride))
    && w.hashes == H.Column(HashesOf(g, w.nodes), w.stride)
    && StrideKnown(w.stride) && w.blockSize > 0 && IsPowerOfTwo(w.blockSize)
    && w.starts == B.Starts(hash, w.blockSize, NodeLabels(w.nodes), 0)
    && w.digests == B.Digests(hash, w.blockSize, NodeLabels(w.nodes), 0)
  }

  lemma WorkDictsShort(g: TargetGraph, w: Work)
    requires Representable(g) && IsNodes(g, w.nodes) && InGraph(g, w.nodes) && DictsWork(g, w)
    ensures |w.nodes| == |g.targets| && ShortTexts(w.pkgDict) && ShortTexts(w.dicts.names)
    ensures ShortTexts(w.dicts.ruleTypes)
    ensures ShortTexts(w.dicts.tags) && ShortTexts(w.dicts.attrNames) && ShortTexts(w.dicts.attrValues)
  {
    hide IsDict, IsNodes, ShortTexts, ShortValues;
    PartsShort(g, w.nodes);
    DictOfTexts(w.pkgDict, Pkgs(w.nodes));
    DictOfTexts(w.dicts.names, Names(w.nodes));
    DictShort(w.dicts.ruleTypes, g.metadata.ruleTypes);
    DictShort(w.dicts.tags, g.metadata.tags);
    DictShort(w.dicts.attrNames, g.metadata.attributeNames);
    DictShort(w.dicts.attrValues, g.metadata.attributeValues);
  }

  lemma {:induction false} FewBlocks(hash: B.Hash, size: nat, names: seq<Text>, lo: nat)
    requires size > 0 && lo <= |names|
    ensures |B.Digests(hash, size, names, lo)| <= |names| - lo
    decreases |names| - lo
  {
    hide B.Stream;
    if lo < |names| {
      FewBlocks(hash, size, names, B.BlockEnd(hash, size, names, lo, lo));
    }
  }

  lemma RowListsShort(g: TargetGraph, w: Work, i: nat)
    requires Representable(g) && InGraph(g, w.nodes) && RowsHold(g, w) && i < |w.nodes|
    ensures |w.rows[i].deps| < TWO_31 && |w.rows[i].tags| < TWO_31
    ensures |w.rows[i].attrNames| == |w.rows[i].attrValues| < TWO_31
  {
    hide DepsHold, TagsHold, TextPairs, AttrPairs, ShortValues;
    assert TargetAt(g, w.nodes, i) in g.targets;
  }

  lemma WorkSizes(hash: B.Hash, g: TargetGraph, w: Work)
    requires Representable(g) && WorkDone(hash, g, w)
    ensures |w.rows| == |w.nodes| == |w.pkgIDs| == |g.targets| < TWO_31
    ensures |w.hashes| == |w.nodes| * w.stride && |w.digests| <= |w.nodes|
    ensures |g.metadata.fileHashes| < TWO_63
    ensures forall k | k in g.metadata.fileHashes :: |k| < TWO_63 && |g.metadata.fileHashes[k]| < TWO_63
    ensures StrideKnown(w.stride) && IsPowerOfTwo(w.blockSize)
  {
    hide RowHolds, IsDict, ShortTexts, ShortValues, H.Accepted, H.Column, B.Starts, B.Digests, IsPowerOfTwo, IsNodes;
    PartsShort(g, w.nodes);
    FewBlocks(hash, w.blockSize, NodeLabels(w.nodes), 0);
  }

  lemma ListsShort(g: TargetGraph, w: Work)
    requires Representable(g) && InGraph(g, w.nodes) && RowsHold(g, w)
    ensures var c, n := Assemble(g, w), |w.nodes|;
      && ShortLists(c.deps, n) && ShortLists(c.tags, n) && ShortLists(c.attrNames, n) && ShortLists(c.attrValues, n)
      && forall k | 0 <= k < n :: |c.attrNames[k]| == |c.attrValues[k]|
  {
    hide RowHolds, Representable, Numbers;
    forall i | 0 <= i < |w.nodes|
      ensures |w.rows[i].deps| < TWO_31 && |w.rows[i].tags| < TWO_31
      ensures |w.rows[i].attrNames| == |w.rows[i].attrValues| < TWO_31
    {
      RowListsShort(g, w, i);
    }
  }

  lemma WorkIsRectangular(hash: B.Hash, g: TargetGraph, w: Work)
    requires Representable(g) && WorkDone(hash, g, w)
    ensures Rectangular(Assemble(g, w))
  {
    hide RowsHold, DictsWork, ShortTexts, ShortLists, Representable, IsPowerOfTwo, Numbers, IsNodes, H.Accepted,
      H.Column, B.Starts, B.Digests;
    WorkSizes(hash, g, w);
    WorkDictsShort(g, w);
    ListsShort(g, w);
  }

  /** Work that is done is the graph in columns. */
  lemma WorkEncodes(hash: B.Hash, g: TargetGraph, w: Work)
    requires Representable(g) && WorkDone(hash, g, w)
    ensures Encodes(hash, g, w.nodes, Assemble(g, w))
  {
    hide RowHolds, IsDict, IsNodes, ShortTexts, Representable, H.Accepted, H.Column, B.Starts, B.Digests, Rectangular;
    WorkIsRectangular(hash, g, w);
    var c := Assemble(g, w);
    assert DictsOf(c) == w.dicts;
    forall i | 0 <= i < |w.nodes| ensures NodeHolds(g, w.nodes, c, i) {
      assert RowAt(c, i) == w.rows[i];
    }
  }

  lemma EveryTarget(g: TargetGraph, nodes: seq<NodeInfo>, t: OptimizedTarget)
    requires IsNodes(g, nodes) && t in g.targets
    ensures exists i :: 0 <= i < |nodes| && nodes[i].origIdx < |g.targets| && g.targets[nodes[i].origIdx] == t
  {
    SameElements(nodes, Infos(g));
    var j :| 0 <= j < |g.targets| && g.targets[j] == t;
    assert Infos(g)[j] in nodes;
    var i :| 0 <= i < |nodes| && nodes[i] == Infos(g)[j];
  }

  lemma AcceptableIs(g: TargetGraph, nodes: seq<NodeInfo>, t: OptimizedTarget, stride: nat)
    requires IsNodes(g, nodes)
    ensures Mapped(g.metadata, nodes, t) && H.Accepted(t.hash, stride) <==> Acceptable(g, t, stride)
  {
    hide Resolve, Resolvable, IsNodes, H.Accepted;
    forall d ensures Resolve(nodes, d).Some? <==> Resolvable(g, d) {
      ResolveIs(g, nodes, d);
    }
  }

  /** All rows resolve and all hashes store exactly when the encoder accepts
      every target. */
  lemma EncodableIs(g: TargetGraph, nodes: seq<NodeInfo>, stride: nat)
    requires IsNodes(g, nodes) && InGraph(g, nodes)
    ensures Encodable(g, stride) <==>
            (forall i | 0 <= i < |nodes| :: Mapped(g.metadata, nodes, g.targets[nodes[i].origIdx])) &&
            (forall h | h in HashesOf(g, nodes) :: H.Accepted(h, stride))
  {
    hide Mapped, Acceptable, H.Accepted;
    var hashes := HashesOf(g, nodes);
    forall i | 0 <= i < |nodes| ensures hashes[i] in hashes && g.targets[nodes[i].origIdx] in g.targets
      ensures Mapped(g.metadata, nodes, g.targets[nodes[i].origIdx]) && H.Accepted(hashes[i], stride) <==>
              Acceptable(g, g.targets[nodes[i].origIdx], stride)
    {
      AcceptableIs(g, nodes, g.targets[nodes[i].origIdx], stride);
    }
    forall t | t in g.targets ensures exists i :: 0 <= i < |nodes| && g.targets[nodes[i].origIdx] == t {
      EveryTarget(g, nodes, t);
    }
  }

  /** All six dictionaries. */
  method BuildDicts(g: TargetGraph, nodes: seq<NodeInfo>, depth: nat)
    returns (pkgDict: seq<Text>, pkgIDs: seq<int32>, dicts: RowDicts)
    requires Sorted(ByKey, nodes) && |nodes| < TWO_31
    ensures forall w: Work | w.nodes == nodes && w.pkgDict == pkgDict && w.pkgIDs == pkgIDs && w.dicts == dicts ::
        DictsWork(g, w)
  {
    hide IsDict;
    pkgDict, pkgIDs := BuildPkgDict(nodes);
    var names := BuildNameDict(nodes, depth);
    var ruleTypes := SortedUniqueStrings(g.metadata.ruleTypes);
    var tags := SortedUniqueStrings(g.metadata.tags);
    var attrNames := SortedUniqueStrings(g.metadata.attributeNames);
    var attrValues := SortedUniqueStrings(g.metadata.attributeValues);
    dicts := RowDicts(names, ruleTypes, tags, attrNames, attrValues);
  }

  /** `newEncoder`: columns for exactly the graphs the encoder accepts. */
  method EncodeColumns(hash: B.Hash, g: TargetGraph, o: Options, depth: nat)
    returns (r: Option<Columns>, ghost nodes: seq<NodeInfo>)
    requires Representable(g)
    ensures r.Some? <==> OptionsValid(FillDefaults(o)) && Encodable(g, FillDefaults(o).hashBytes)
    ensures r.Some? ==> Encodes(hash, g, nodes, r.value)
    ensures r.Some? ==> r.value.stride == FillDefaults(o).hashBytes && r.value.blockSize == FillDefaults(o).blockSize
    ensures r.Some? ==>
      && r.value.stride == (if o.hashBytes == 0 then 8 else o.hashBytes) && r.value.stride in {8, 16, 20}
      && r.value.blockSize == (if o.blockSize == 0 then 512 else o.blockSize)
  {
    hide IsNodes, IsDict, TablesHold, RowHolds, Mapped, Acceptable, H.Accepted, H.Column, B.Starts, B.Digests,
      IsPowerOfTwo, ShortTexts,
      Representable, DictsWork, Encodes, HashesOf;
    nodes := [];
    var opts := FillDefaults(o);
    if !OptionsValid(opts) {
      return None, nodes;
    }
    var built := BuildNodes(g, depth);
    if built.None? {
      return None, nodes;
    }
    nodes := built.value;
    NodesReady(g, nodes);
    EncodableIs(g, nodes, opts.hashBytes);
    var pkgDict, pkgIDs, dicts := BuildDicts(g, built.value, depth);
    ghost var begun := Work(nodes, [], dicts, pkgDict, pkgIDs, [], [], [], opts.hashBytes, opts.blockSize);
    DictsReady(g, begun);
    var tables := BuildTables(g.metadata, built.value, dicts);
    var rows := BuildRows(g, built.value, dicts, tables);
    if rows.None? {
      return None, nodes;
    }
    var hashes := H.EncodeHashes(HashesOf(g, built.value), opts.hashBytes);
    if hashes.None? {
      return None, nodes;
    }
    var starts, digests := B.BuildBlocks(hash, opts.blockSize, NodeLabels(built.value));
    var w := Work(built.value, rows.value, dicts, pkgDict, pkgIDs, hashes.value, starts, digests, opts.hashBytes,
                  opts.blockSize);
    WorkEncodes(hash, g, w);
    r := Some(Assemble(g, w));
  }

  lemma NodesReady(g: TargetGraph, nodes: seq<NodeInfo>)
    requires Representable(g) && IsNodes(g, nodes)
    ensures Sorted(ByKey, nodes) && |nodes| < TWO_31 && InGraph(g, nodes)
  {
    PartsShort(g, nodes);
  }

  lemma DictsReady(g: TargetGraph, w: Work)
    requires Representable(g) && IsNodes(g, w.nodes) && InGraph(g, w.nodes) && DictsWork(g, w)
    ensures |w.dicts.names| < TWO_31 && NoDuplicates(w.dicts.names)
    ensures IsDict(w.dicts.names, set s | s in Names(w.nodes))
    ensures IsDict(w.dicts.ruleTypes, g.metadata.ruleTypes.Values) && |w.dicts.ruleTypes| < TWO_31
    ensures IsDict(w.dicts.tags, g.metadata.tags.Values) && |w.dicts.tags| < TWO_31
    ensures IsDict(w.dicts.attrNames, g.metadata.attributeNames.Values) && |w.dicts.attrNames| < TWO_31
    ensures IsDict(w.dicts.attrValues, g.metadata.attributeValues.Values) && |w.dicts.attrValues| < TWO_31
  {
    hide IsDict;
    WorkDictsShort(g, w);
    DictDistinct(w.dicts.names, set s | s in Names(w.nodes));
  }
}
