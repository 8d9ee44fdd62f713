/** One node at a time: names, dependencies, tags and attributes turned from the
    graph's numbers into the file's. */
module GraphRows {
  import opened Wrappers
  import opened ByteStrings
  import opened Varint
  import opened Entity
  import opened Sorting
  import opened GraphNodes

  // ---- Finding a target by its number ----

  /** The last of the first `n` nodes that carries the number. */
  function LastWith(nodes: seq<NodeInfo>, id: int32, n: nat): (i: Option<nat>)
    requires n <= |nodes|
    ensures i.Some? ==> i.value < n && nodes[i.value].origID == id
    ensures i.None? ==> forall k | 0 <= k < n :: nodes[k].origID != id
  {
    if n == 0 then None else if nodes[n - 1].origID == id then Some(n - 1) else LastWith(nodes, id, n - 1)
  }

  function MaxID(nodes: seq<NodeInfo>, n: nat): (max: nat)
    requires n <= |nodes|
    ensures forall k | 0 <= k < n :: nodes[k].origID <= max
  {
    if n == 0 then 0 else
      var before := MaxID(nodes, n - 1);
      if nodes[n - 1].origID > before then nodes[n - 1].origID else before
  }

  /** Numbers close enough together for a table indexed by them. */
  predicate Dense(nodes: seq<NodeInfo>) {
    MaxID(nodes, |nodes|) < 2 * |nodes| + 16
  }

  /** A negative number is only found when the numbers are too far apart for the
      indexed table. */
  function Resolve(nodes: seq<NodeInfo>, id: int32): (i: Option<nat>)
    ensures i.Some? ==> i.value < |nodes| && nodes[i.value].origID == id
  {
    if id < 0 && Dense(nodes) then None else LastWith(nodes, id, |nodes|)
  }

  datatype IdIndex = Slots(slots: seq<int>) | Table(entries: map<int32, nat>) {
    function Find(id: int32): Option<nat> {
      match this
      case Slots(s) => if id < 0 || id >= |s| || s[id] < 0 then None else Some(s[id])
      case Table(m) => if id in m then Some(m[id]) else None
    }
  }

  function AsSlot(i: Option<nat>): int {
    if i.Some? then i.value else -1
  }

  method IndexBySlot(nodes: seq<NodeInfo>, maxID: nat) returns (slots: seq<int>)
    requires maxID == MaxID(nodes, |nodes|)
    ensures |slots| == maxID + 1
    ensures forall id: int32 | 0 <= id <= maxID :: slots[id] == AsSlot(LastWith(nodes, id, |nodes|))
  {
    var a := new int[maxID + 1](i => -1);
    for i := 0 to |nodes|
      invariant forall id: int32 | 0 <= id <= maxID :: a[id] == AsSlot(LastWith(nodes, id, i))
    {
      if nodes[i].origID >= 0 {
        a[nodes[i].origID] := i;
      }
    }
    slots := a[..];
  }

  method IndexByTable(nodes: seq<NodeInfo>) returns (entries: map<int32, nat>)
    ensures forall id: int32 :: LastWith(nodes, id, |nodes|) == if id in entries then Some(entries[id]) else None
  {
    entries := map[];
    for i := 0 to |nodes|
      invariant forall id: int32 :: LastWith(nodes, id, i) == if id in entries then Some(entries[id]) else None
    {
      entries := entries[nodes[i].origID := i];
    }
  }

  method BuildIdIndex(nodes: seq<NodeInfo>) returns (index: IdIndex)
    ensures forall id: int32 :: index.Find(id) == Resolve(nodes, id)
  {
    var maxID := 0;
    for i := 0 to |nodes|
      invariant maxID == MaxID(nodes, i)
    {
      if nodes[i].origID > maxID {
        maxID := nodes[i].origID;
      }
    }
    if maxID < 2 * |nodes| + 16 {
      var slots := IndexBySlot(nodes, maxID);
      index := Slots(slots);
      forall id: int32 ensures index.Find(id) == Resolve(nodes, id) {
        assert LastWith(nodes, id, |nodes|).Some? ==> id <= maxID;
      }
    } else {
      var entries := IndexByTable(nodes);
      index := Table(entries);
    }
  }

  // ---- What is asked of a target ----

  /** Every number the target uses stands for something. */
  predicate Mapped(meta: Metadata, nodes: seq<NodeInfo>, t: OptimizedTarget) {
    && t.ruleType in meta.ruleTypes
    && (forall d | d in t.deps :: Resolve(nodes, d).Some?)
    && (forall x | x in t.tags :: x in meta.tags)
    && (forall a | a in t.attributes :: a in meta.attributeNames && t.attributes[a] in meta.attributeValues)
  }

  // ---- What a row says ----

  datatype Row = Row(nameID: int32, ruleTypeID: int32, deps: seq<int32>, tags: seq<int32>, attrNames: seq<int32>,
                     attrValues: seq<int32>)

  datatype RowDicts = RowDicts(names: seq<Text>, ruleTypes: seq<Text>, tags: seq<Text>, attrNames: seq<Text>,
                               attrValues: seq<Text>)

  function OrigAt(nodes: seq<NodeInfo>, d: int32): int32 {
    if 0 <= d < |nodes| then nodes[d].origID else 0
  }

  function OrigIDs(nodes: seq<NodeInfo>, deps: seq<int32>): seq<int32> {
    Map((d: int32) => OrigAt(nodes, d), deps)
  }

  function TextAt(dict: seq<Text>, i: int32): Text {
    if 0 <= i < |dict| then dict[i] else []
  }

  function TextsAt(dict: seq<Text>, ids: seq<int32>): (texts: seq<Text>)
    ensures |texts| == |ids|
  {
    Map((i: int32) => TextAt(dict, i), ids)
  }

  function TextOf(mapping: map<int32, Text>, id: int32): Text {
    if id in mapping then mapping[id] else []
  }

  function TextsOf(mapping: map<int32, Text>, ids: seq<int32>): (texts: seq<Text>)
    ensures |texts| == |ids|
  {
    Map((i: int32) => TextOf(mapping, i), ids)
  }

  predicate InRange(ids: seq<int32>, n: nat) {
    forall k | 0 <= k < |ids| :: 0 <= ids[k] < n
  }

  predicate Ascending(ids: seq<int32>) {
    forall i, j | 0 <= i < j < |ids| :: ids[i] <= ids[j]
  }

  /** The dependencies of a row are those of the target, in file order. */
  ghost predicate DepsHold(nodes: seq<NodeInfo>, t: OptimizedTarget, deps: seq<int32>) {
    InRange(deps, |nodes|) && Ascending(deps) && multiset(OrigIDs(nodes, deps)) == multiset(t.deps)
  }

  ghost predicate TagsHold(meta: Metadata, tagDict: seq<Text>, t: OptimizedTarget, tags: seq<int32>) {
    InRange(tags, |tagDict|) && Ascending(tags) &&
    multiset(TextsAt(tagDict, tags)) == multiset(TextsOf(meta.tags, t.tags))
  }

  /** The pairs of texts the target's attributes stand for. */
  ghost function AttrPairs(meta: Metadata, t: OptimizedTarget): set<(Text, Text)> {
    set a | a in t.attributes :: (TextOf(meta.attributeNames, a), TextOf(meta.attributeValues, t.attributes[a]))
  }

  /** The pairs of texts that numbers of names and values stand for. */
  ghost function TextPairs(dicts: RowDicts, names: seq<int32>, values: seq<int32>): set<(Text, Text)>
    requires |names| == |values|
  {
    set k | 0 <= k < |names| :: (TextAt(dicts.attrNames, names[k]), TextAt(dicts.attrValues, values[k]))
  }

  ghost predicate AttrsHold(meta: Metadata, dicts: RowDicts, t: OptimizedTarget, names: seq<int32>,
                            values: seq<int32>) {
    && |names| == |values| == |t.attributes| && InRange(names, |dicts.attrNames|) && InRange(values, |dicts.attrValues|)
    && Ascending(names)
    && TextPairs(dicts, names, values) == AttrPairs(meta, t)
  }

  ghost predicate RowHolds(meta: Metadata, nodes: seq<NodeInfo>, dicts: RowDicts, name: Text, t: OptimizedTarget,
                           row: Row) {
    && 0 <= row.nameID < |dicts.names| && dicts.names[row.nameID] == name
    && 0 <= row.ruleTypeID < |dicts.ruleTypes| && dicts.ruleTypes[row.ruleTypeID] == TextOf(meta.ruleTypes, t.ruleType)
    && DepsHold(nodes, t, row.deps)
    && TagsHold(meta, dicts.tags, t, row.tags)
    && AttrsHold(meta, dicts, t, row.attrNames, row.attrValues)
  }

  // ---- Making the rows ----

  function SortIDs(ids: seq<int32>): (sorted: seq<int32>)
    ensures |sorted| == |ids| && multiset(sorted) == multiset(ids)
  {
    Sort((a: int32, b: int32) => a <= b, ids)
  }

  lemma SortedIDs(ids: seq<int32>, n: nat)
    requires InRange(ids, n)
    ensures InRange(SortIDs(ids), n) && Ascending(SortIDs(ids))
  {
    SortSorted((a: int32, b: int32) => a <= b, ids);
    SameElements(SortIDs(ids), ids);
    forall k | 0 <= k < |ids| ensures 0 <= SortIDs(ids)[k] < n {
      assert SortIDs(ids)[k] in ids;
    }
  }

  method ResolveDeps(nodes: seq<NodeInfo>, index: IdIndex, t: OptimizedTarget) returns (deps: Option<seq<int32>>)
    requires |nodes| < TWO_31 && forall id: int32 :: index.Find(id) == Resolve(nodes, id)
    ensures deps.Some? <==> forall d | d in t.deps :: Resolve(nodes, d).Some?
    ensures deps.Some? ==> DepsHold(nodes, t, deps.value) && |deps.value| == |t.deps|
  {
    hide Resolve;
    var buf: seq<int32> := [];
    for j := 0 to |t.deps|
      invariant |buf| == j && InRange(buf, |nodes|)
      invariant forall k | 0 <= k < j :: Resolve(nodes, t.deps[k]).Some? && OrigAt(nodes, buf[k]) == t.deps[k]
    {
      var ni := index.Find(t.deps[j]);
      if ni.None? {
        assert t.deps[j] in t.deps;
        return None;
      }
      buf := buf + [ni.value];
    }
    assert OrigIDs(nodes, buf) == t.deps;
    SortedIDs(buf, |nodes|);
    MapRearranged((d: int32) => OrigAt(nodes, d), SortIDs(buf), buf);
    deps := Some(SortIDs(buf));
  }

  method ResolveTags(meta: Metadata, tagDict: seq<Text>, remap: map<int32, nat>, t: OptimizedTarget)
    returns (tags: Option<seq<int32>>)
    requires |tagDict| < TWO_31 && remap.Keys == meta.tags.Keys
    requires forall k | k in meta.tags :: remap[k] < |tagDict| && tagDict[remap[k]] == meta.tags[k]
    ensures tags.Some? <==> forall x | x in t.tags :: x in meta.tags
    ensures tags.Some? ==> TagsHold(meta, tagDict, t, tags.value) && |tags.value| == |t.tags|
  {
    var buf: seq<int32> := [];
    for j := 0 to |t.tags|
      invariant |buf| == j && InRange(buf, |tagDict|)
      invariant forall k | 0 <= k < j ::
          t.tags[k] in meta.tags && TextAt(tagDict, buf[k]) == TextOf(meta.tags, t.tags[k])
    {
      assert t.tags[j] in t.tags;
      if t.tags[j] !in remap {
        return None;
      }
      buf := buf + [remap[t.tags[j]]];
    }
    assert TextsAt(tagDict, buf) == TextsOf(meta.tags, t.tags);
    SortedIDs(buf, |tagDict|);
    MapRearranged((i: int32) => TextAt(tagDict, i), SortIDs(buf), buf);
    tags := Some(SortIDs(buf));
  }

  ghost function PairsOf(meta: Metadata, t: OptimizedTarget, done: set<int32>): set<(Text, Text)>
    requires done <= t.attributes.Keys
  {
    set a | a in done :: (TextOf(meta.attributeNames, a), TextOf(meta.attributeValues, t.attributes[a]))
  }

  /** The pairs of the attributes in `done`, one for each. */
  ghost predicate PairsHold(meta: Metadata, dicts: RowDicts, t: OptimizedTarget, done: set<int32>,
                            kvs: seq<(int32, int32)>)
    requires done <= t.attributes.Keys
  {
    && |kvs| == |done| && InRange(Firsts(kvs), |dicts.attrNames|) && InRange(Seconds(kvs), |dicts.attrValues|)
    && TextPairs(dicts, Firsts(kvs), Seconds(kvs)) == PairsOf(meta, t, done)
  }

  lemma OnePairMore(meta: Metadata, dicts: RowDicts, t: OptimizedTarget, done: set<int32>, kvs: seq<(int32, int32)>,
                    a: int32, n: int32, v: int32)
    requires done <= t.attributes.Keys && a in t.attributes && a !in done && PairsHold(meta, dicts, t, done, kvs)
    requires 0 <= n < |dicts.attrNames| && 0 <= v < |dicts.attrValues|
    requires TextAt(dicts.attrNames, n) == TextOf(meta.attributeNames, a)
    requires TextAt(dicts.attrValues, v) == TextOf(meta.attributeValues, t.attributes[a])
    ensures PairsHold(meta, dicts, t, done + {a}, kvs + [(n, v)])
  {
    hide TextPairs, PairsOf, TextAt, TextOf;
    assert Firsts(kvs + [(n, v)]) == Firsts(kvs) + [n] && Seconds(kvs + [(n, v)]) == Seconds(kvs) + [v];
    TextPairsMore(dicts, Firsts(kvs), Seconds(kvs), n, v);
    PairsMore(meta, t, done, a);
  }

  lemma TextPairsMore(dicts: RowDicts, names: seq<int32>, values: seq<int32>, n: int32, v: int32)
    requires |names| == |values|
    ensures TextPairs(dicts, names + [n], values + [v]) ==
            TextPairs(dicts, names, values) + {(TextAt(dicts.attrNames, n), TextAt(dicts.attrValues, v))}
  {
    hide TextAt;
    var names', values' := names + [n], values + [v];
    forall p
      ensures p in TextPairs(dicts, names', values') <==>
              p in TextPairs(dicts, names, values) || p == (TextAt(dicts.attrNames, n), TextAt(dicts.attrValues, v))
    {
      if p in TextPairs(dicts, names, values) {
        var k :| 0 <= k < |names| && p == (TextAt(dicts.attrNames, names[k]), TextAt(dicts.attrValues, values[k]));
        assert names'[k] == names[k] && values'[k] == values[k];
      }
      assert names'[|names|] == n && values'[|names|] == v;
    }
  }

  lemma PairsMore(meta: Metadata, t: OptimizedTarget, done: set<int32>, a: int32)
    requires done <= t.attributes.Keys && a in t.attributes
    ensures PairsOf(meta, t, done + {a}) ==
            PairsOf(meta, t, done) + {(TextOf(meta.attributeNames, a), TextOf(meta.attributeValues, t.attributes[a]))}
  {
    hide TextOf;
  }

  predicate ByNameID(a: (int32, int32), b: (int32, int32)) {
    a.0 <= b.0
  }

  function Firsts(kvs: seq<(int32, int32)>): (r: seq<int32>)
    ensures |r| == |kvs|
  {
    seq(|kvs|, k requires 0 <= k < |kvs| => kvs[k].0)
  }

  function Seconds(kvs: seq<(int32, int32)>): (r: seq<int32>)
    ensures |r| == |kvs|
  {
    seq(|kvs|, k requires 0 <= k < |kvs| => kvs[k].1)
  }

  lemma SortedPairsHold(meta: Metadata, dicts: RowDicts, t: OptimizedTarget, kvs: seq<(int32, int32)>,
                        sorted: seq<(int32, int32)>)
    requires PairsHold(meta, dicts, t, t.attributes.Keys, kvs)
    requires multiset(sorted) == multiset(kvs) && Sorted(ByNameID, sorted)
    ensures AttrsHold(meta, dicts, t, Firsts(sorted), Seconds(sorted))
  {
    hide TextAt, TextOf, TextPairs, PairsOf, AttrPairs;
    SameElements(sorted, kvs);
    assert |t.attributes| == |t.attributes.Keys|;
    forall k | 0 <= k < |sorted|
      ensures 0 <= Firsts(sorted)[k] < |dicts.attrNames| && 0 <= Seconds(sorted)[k] < |dicts.attrValues|
    {
      assert sorted[k] in kvs;
      var j :| 0 <= j < |kvs| && kvs[j] == sorted[k];
      assert Firsts(kvs)[j] == Firsts(sorted)[k] && Seconds(kvs)[j] == Seconds(sorted)[k];
    }
    forall i, j | 0 <= i < j < |sorted| ensures Firsts(sorted)[i] <= Firsts(sorted)[j] {
      assert ByNameID(sorted[i], sorted[j]);
    }
    SameTextPairs(dicts, kvs, sorted);
    AllPairs(meta, t);
  }

  lemma AllPairs(meta: Metadata, t: OptimizedTarget)
    ensures PairsOf(meta, t, t.attributes.Keys) == AttrPairs(meta, t)
  {
    hide TextOf;
  }

  lemma SameTextPairs(dicts: RowDicts, kvs: seq<(int32, int32)>, sorted: seq<(int32, int32)>)
    requires forall kv :: kv in kvs <==> kv in sorted
    ensures TextPairs(dicts, Firsts(sorted), Seconds(sorted)) == TextPairs(dicts, Firsts(kvs), Seconds(kvs))
  {
    TextPairsWithin(dicts, kvs, sorted);
    TextPairsWithin(dicts, sorted, kvs);
  }

  lemma TextPairsWithin(dicts: RowDicts, kvs: seq<(int32, int32)>, sorted: seq<(int32, int32)>)
    requires forall kv | kv in kvs :: kv in sorted
    ensures TextPairs(dicts, Firsts(kvs), Seconds(kvs)) <= TextPairs(dicts, Firsts(sorted), Seconds(sorted))
  {
    hide TextAt;
    forall p | p in TextPairs(dicts, Firsts(kvs), Seconds(kvs))
      ensures p in TextPairs(dicts, Firsts(sorted), Seconds(sorted))
    {
      var k :| 0 <= k < |kvs| && p == (TextAt(dicts.attrNames, Firsts(kvs)[k]),
                                       TextAt(dicts.attrValues, Seconds(kvs)[k]));
      assert kvs[k] in sorted;
      var j :| 0 <= j < |sorted| && sorted[j] == kvs[k];
      assert Firsts(sorted)[j] == Firsts(kvs)[k] && Seconds(sorted)[j] == Seconds(kvs)[k];
    }
  }

  /** The attributes of one target, walked in any order, then sorted. */
  method ResolveAttrs(meta: Metadata, dicts: RowDicts, names: map<int32, nat>, values: map<int32, nat>,
                      t: OptimizedTarget)
    returns (r: Option<(seq<int32>, seq<int32>)>)
    requires |dicts.attrNames| < TWO_31 && names.Keys == meta.attributeNames.Keys
    requires forall k | k in meta.attributeNames ::
        names[k] < |dicts.attrNames| && dicts.attrNames[names[k]] == meta.attributeNames[k]
    requires |dicts.attrValues| < TWO_31 && values.Keys == meta.attributeValues.Keys
    requires forall k | k in meta.attributeValues ::
        values[k] < |dicts.attrValues| && dicts.attrValues[values[k]] == meta.attributeValues[k]
    ensures r.Some? <==>
            forall a | a in t.attributes :: a in meta.attributeNames && t.attributes[a] in meta.attributeValues
    ensures r.Some? ==> AttrsHold(meta, dicts, t, r.value.0, r.value.1)
  {
    hide PairsHold, AttrsHold;
    var kvs: seq<(int32, int32)> := [];
    var todo := t.attributes.Keys;
    ghost var done: set<int32> := {};
    assert PairsHold(meta, dicts, t, done, kvs) by {
      NoPairsYet(meta, dicts, t);
    }
    while todo != {}
      invariant todo + done == t.attributes.Keys && todo !! done
      invariant forall a | a in done :: a in meta.attributeNames && t.attributes[a] in meta.attributeValues
      invariant PairsHold(meta, dicts, t, done, kvs)
    {
      var a :| a in todo;
      assert a in t.attributes;
      var v := t.attributes[a];
      if a !in names || v !in values {
        return None;
      }
      OnePairMore(meta, dicts, t, done, kvs, a, names[a], values[v]);
      kvs := kvs + [(names[a], values[v])];
      todo := todo - {a};
      done := done + {a};
    }
    assert done == t.attributes.Keys;
    var sorted := Sort(ByNameID, kvs);
    SortSorted(ByNameID, kvs);
    SortedPairsHold(meta, dicts, t, kvs, sorted);
    r := Some((Firsts(sorted), Seconds(sorted)));
  }

  lemma NoPairsYet(meta: Metadata, dicts: RowDicts, t: OptimizedTarget)
    ensures PairsHold(meta, dicts, t, {}, [])
  {
  }

  // ---- One row ----

  datatype Tables = Tables(
    names: map<Text, nat>, ruleTypes: map<int32, nat>, tags: map<int32, nat>, attrNames: map<int32, nat>,
    attrValues: map<int32, nat>, index: IdIndex)

  predicate Remaps(mapping: map<int32, Text>, dict: seq<Text>, remap: map<int32, nat>) {
    && |dict| < TWO_31 && remap.Keys == mapping.Keys
    && forall k | k in mapping :: remap[k] < |dict| && dict[remap[k]] == mapping[k]
  }

  ghost predicate TablesHold(meta: Metadata, nodes: seq<NodeInfo>, dicts: RowDicts, tables: Tables) {
    && |nodes| < TWO_31 && |dicts.names| < TWO_31
    && (forall s | s in dicts.names ::
          s in tables.names && tables.names[s] < |dicts.names| && dicts.names[tables.names[s]] == s)
    && Remaps(meta.ruleTypes, dicts.ruleTypes, tables.ruleTypes)
    && Remaps(meta.tags, dicts.tags, tables.tags)
    && Remaps(meta.attributeNames, dicts.attrNames, tables.attrNames)
    && Remaps(meta.attributeValues, dicts.attrValues, tables.attrValues)
    && forall id: int32 :: tables.index.Find(id) == Resolve(nodes, id)
  }

  /** A row, or nothing when the target uses a number that stands for nothing. */
  method ResolveRow(meta: Metadata, nodes: seq<NodeInfo>, dicts: RowDicts, tables: Tables, name: Text,
                    t: OptimizedTarget)
    returns (row: Option<Row>)
    requires TablesHold(meta, nodes, dicts, tables) && name in dicts.names
    ensures row.Some? <==> Mapped(meta, nodes, t)
    ensures row.Some? ==> RowHolds(meta, nodes, dicts, name, t, row.value)
    ensures row.Some? ==> |row.value.deps| == |t.deps| && |row.value.tags| == |t.tags|
  {
    hide DepsHold, TagsHold, AttrsHold, Resolve;
    if t.ruleType !in tables.ruleTypes {
      return None;
    }
    var deps := ResolveDeps(nodes, tables.index, t);
    if deps.None? {
      return None;
    }
    var tags := ResolveTags(meta, dicts.tags, tables.tags, t);
    if tags.None? {
      return None;
    }
    var attrs := ResolveAttrs(meta, dicts, tables.attrNames, tables.attrValues, t);
    if attrs.None? {
      return None;
    }
    row := Some(Row(tables.names[name], tables.ruleTypes[t.ruleType], deps.value, tags.value, attrs.value.0,
        attrs.value.1));
  }
}
