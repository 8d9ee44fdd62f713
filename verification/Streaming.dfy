/** Streaming a graph: metadata cut into messages, and chunks merged back. */
module Streaming {
  import opened Wrappers
  import opened ByteStrings
  import opened Sorting
  import opened Varint
  import opened Entity
  import opened Splitting
  import opened Wire

  type Names = map<int32, Text>

  function Restrict(m: Names, keys: seq<int32>): Names {
    map k | k in m && k in keys :: m[k]
  }

  function Sizes(m: Names): int32 -> nat {
    (k: int32) => if k in m then EntryBytes(k, m[k]) else 0
  }

  /** `groups` cuts `m` along `keys`, a greedy split of its keys in some order. */
  ghost predicate Cuts(m: Names, maxBytes: int, groups: seq<Names>, keys: seq<seq<int32>>) {
    && |groups| == |keys| && (forall i | 0 <= i < |groups| :: groups[i] == Restrict(m, keys[i]))
    && IsSplit(Sizes(m), maxBytes, Flatten(keys), keys) && Greedy(Sizes(m), maxBytes, keys)
    && NoDuplicates(Flatten(keys)) && (forall k :: k in Flatten(keys) <==> k in m)
  }

  lemma SeenMore(m: Names, maxBytes: int, seen: seq<int32>, keys: seq<seq<int32>>, current: seq<int32>, k: int32)
    requires Progress(Sizes(m), maxBytes, seen, keys, current, |seen|)
    ensures Progress(Sizes(m), maxBytes, seen + [k], keys, current, |seen|)
  {
    assert (seen + [k])[..|seen|] == seen == seen[..|seen|];
  }

  lemma RestrictMore(m: Names, keys: seq<int32>, k: int32)
    requires k in m
    ensures Restrict(m, keys)[k := m[k]] == Restrict(m, keys + [k])
  {
  }

  lemma DistinctMore(seen: seq<int32>, k: int32)
    requires NoDuplicates(seen) && k !in seen
    ensures NoDuplicates(seen + [k])
  {
  }

  ghost predicate MapProgress(m: Names, maxBytes: int, groups: seq<Names>, keys: seq<seq<int32>>, current: Names,
                              now: seq<int32>, seen: seq<int32>) {
    && NoDuplicates(seen) && (forall k | k in seen :: k in m)
    && Progress(Sizes(m), maxBytes, seen, keys, now, |seen|)
    && |groups| == |keys| && (forall i | 0 <= i < |groups| :: groups[i] == Restrict(m, keys[i]) && groups[i] != map[])
    && current == Restrict(m, now) && (current == map[] <==> now == [])
  }

  lemma MapStarts(m: Names, maxBytes: int)
    ensures MapProgress(m, maxBytes, [], [], map[], [], []) && Bytes(Sizes(m), []) == 0
  {
    NotStarted(Sizes(m), maxBytes, []);
  }

  lemma MapCloses(m: Names, maxBytes: int, groups: seq<Names>, keys: seq<seq<int32>>, current: Names, now: seq<int32>,
                  seen: seq<int32>, k: int32)
    requires MapProgress(m, maxBytes, groups, keys, current, now, seen) && k in m && k !in seen
    requires current != map[] && Bytes(Sizes(m), now) + EntryBytes(k, m[k]) > maxBytes
    ensures MapProgress(m, maxBytes, groups + [current], keys + [now], map[k := m[k]], [k], seen + [k])
    ensures Bytes(Sizes(m), [k]) == EntryBytes(k, m[k])
  {
    hide Progress, Bytes, NoDuplicates, EntryBytes, Restrict, Sizes;
    SeenMore(m, maxBytes, seen, keys, now, k);
    DistinctMore(seen, k);
    SizeOf(m, k);
    assert (seen + [k])[|seen|] == k && |seen + [k]| == |seen| + 1;
    Closing(Sizes(m), maxBytes, seen + [k], keys, now, |seen|);
    SingleEntry(m, k);
  }

  lemma SizeOf(m: Names, k: int32)
    requires k in m
    ensures Sizes(m)(k) == EntryBytes(k, m[k])
  {
  }

  lemma SingleEntry(m: Names, k: int32)
    requires k in m
    ensures Restrict(m, [k]) == map[k := m[k]] != map[] && Bytes(Sizes(m), [k]) == EntryBytes(k, m[k])
  {
    BytesGrow(Sizes(m), [], k);
    assert [] + [k] == [k];
    assert k in map[k := m[k]];
  }

  lemma MapGrows(m: Names, maxBytes: int, groups: seq<Names>, keys: seq<seq<int32>>, current: Names, now: seq<int32>,
                 seen: seq<int32>, k: int32)
    requires MapProgress(m, maxBytes, groups, keys, current, now, seen) && k in m && k !in seen
    requires current == map[] || Bytes(Sizes(m), now) + EntryBytes(k, m[k]) <= maxBytes
    ensures MapProgress(m, maxBytes, groups, keys, current[k := m[k]], now + [k], seen + [k])
    ensures Bytes(Sizes(m), now + [k]) == Bytes(Sizes(m), now) + EntryBytes(k, m[k])
  {
    hide Progress, Bytes, NoDuplicates, EntryBytes;
    SeenMore(m, maxBytes, seen, keys, now, k);
    DistinctMore(seen, k);
    assert (seen + [k])[|seen|] == k;
    Growing(Sizes(m), maxBytes, seen + [k], keys, now, |seen|);
    RestrictMore(m, now, k);
    assert |seen + [k]| == |seen| + 1 && k in current[k := m[k]];
    BytesGrow(Sizes(m), now, k);
  }

  lemma MapEnds(m: Names, maxBytes: int, groups: seq<Names>, keys: seq<seq<int32>>, current: Names, now: seq<int32>,
                seen: seq<int32>)
    requires MapProgress(m, maxBytes, groups, keys, current, now, seen) && m != map[] && forall k :: k in seen <==>
             k in m
    ensures current != map[] && Cuts(m, maxBytes, groups + [current], keys + [now])
  {
    hide Bytes, NoDuplicates, Flatten, Restrict, Greedy;
    if seen == [] {
      NothingSeen(m, seen);
    }
    Splitting.Closed(Sizes(m), maxBytes, seen, keys, now);
  }

  lemma NothingSeen(m: Names, seen: seq<int32>)
    requires forall k :: k in seen <==> k in m
    ensures seen == [] ==> m == map[]
  {
  }

  /** The keys seen are those no longer left. */
  ghost predicate SeenAll(m: Names, left: set<int32>, seen: seq<int32>) {
    forall k :: k in seen <==> k in m && k !in left
  }

  lemma NoneSeen(m: Names)
    ensures SeenAll(m, m.Keys, [])
  {
  }

  lemma SeenOneMore(m: Names, left: set<int32>, seen: seq<int32>, k: int32)
    requires SeenAll(m, left, seen) && k in left && k in m
    ensures SeenAll(m, left - {k}, seen + [k]) && k !in seen
  {
  }

  lemma EverythingSeen(m: Names, seen: seq<int32>)
    requires SeenAll(m, {}, seen)
    ensures forall k :: k in seen <==> k in m
  {
  }

  /** Cuts a map into messages of at most `maxBytes` or one entry, in whatever
      order its entries come. */
  method CutByBytes(m: Names, maxBytes: int) returns (groups: seq<Names>, ghost keys: seq<seq<int32>>)
    ensures m == map[] ==> groups == [] && keys == []
    ensures m != map[] ==> Cuts(m, maxBytes, groups, keys)
    ensures forall i | 0 <= i < |groups| :: groups[i] != map[]
  {
    groups, keys := [], [];
    if |m| == 0 {
      return;
    }
    hide Restrict, Bytes, Cuts, Progress, Sizes, EntryBytes, MapProgress, SeenAll, TextEntry;
    var current: Names := map[];
    var currentBytes: nat := 0;
    var left := m.Keys;
    ghost var seen: seq<int32>, now: seq<int32> := [], [];
    MapStarts(m, maxBytes);
    NoneSeen(m);
    while left != {}
      invariant left <= m.Keys && SeenAll(m, left, seen)
      invariant MapProgress(m, maxBytes, groups, keys, current, now, seen) && currentBytes == Bytes(Sizes(m), now)
      decreases left
    {
      var k :| k in left;
      SeenOneMore(m, left, seen, k);
      var entryBytes := MapEntryWireSize(k, m[k]);
      if |current| > 0 && currentBytes + entryBytes > maxBytes {
        MapCloses(m, maxBytes, groups, keys, current, now, seen, k);
        groups, keys := groups + [current], keys + [now];
        current, now := map[], [];
        currentBytes := 0;
        assert now + [k] == [k];
      } else {
        MapGrows(m, maxBytes, groups, keys, current, now, seen, k);
      }
      current, now := current[k := m[k]], now + [k];
      currentBytes := currentBytes + entryBytes;
      seen := seen + [k];
      left := left - {k};
    }
    EverythingSeen(m, seen);
    MapEnds(m, maxBytes, groups, keys, current, now, seen);
    if |current| > 0 {
      groups, keys := groups + [current], keys + [now];
    }
  }

  // ---- How much a piece takes ----

  /** The wire size of a map's entries together. */
  ghost function WireBytes(m: Names): nat {
    if m == map[] then 0 else
      var k :| k in m;
      EntryBytes(k, m[k]) + WireBytes(m - {k})
  }

  /** The order in which entries are added up does not matter. */
  lemma {:induction false} WireBytesWithout(m: Names, k: int32)
    requires k in m
    ensures WireBytes(m) == EntryBytes(k, m[k]) + WireBytes(m - {k})
    decreases |m|
  {
    hide EntryBytes;
    var j :| j in m && WireBytes(m) == EntryBytes(j, m[j]) + WireBytes(m - {j});
    if j != k {
      WireBytesWithout(m - {j}, k);
      WireBytesWithout(m - {k}, j);
      assert m - {j} - {k} == m - {k} - {j};
    }
  }

  lemma {:induction false} WireBytesOfKeys(m: Names, keys: seq<int32>)
    requires NoDuplicates(keys) && forall k | k in keys :: k in m
    ensures WireBytes(Restrict(m, keys)) == Bytes(Sizes(m), keys) && |Restrict(m, keys)| == |keys|
  {
    hide EntryBytes, WireBytes, Restrict, Bytes, Sizes;
    if keys == [] {
      NoWireBytes();
      NothingRestricted(m);
    } else {
      var front, k := keys[..|keys| - 1], keys[|keys| - 1];
      assert keys == front + [k];
      WireBytesOfKeys(m, front);
      RestrictedWithout(m, front, k);
      WireBytesWithout(Restrict(m, keys), k);
      BytesGrow(Sizes(m), front, k);
      SizeOf(m, k);
    }
  }

  lemma NothingRestricted(m: Names)
    ensures Restrict(m, []) == map[] && Bytes(Sizes(m), []) == 0
  {
  }

  lemma RestrictedWithout(m: Names, front: seq<int32>, k: int32)
    requires k in m && k !in front
    ensures var all := Restrict(m, front + [k]);
      k in all && all[k] == m[k] && all - {k} == Restrict(m, front) && |all| == |Restrict(m, front)| + 1
  {
    var all := Restrict(m, front + [k]);
    assert all.Keys == Restrict(m, front).Keys + {k};
  }

  lemma NoWireBytes()
    ensures WireBytes(map[]) == 0
  {
  }

  /** A piece of `m` is one entry or takes at most `maxBytes`. */
  ghost predicate PieceFits(m: Names, maxBytes: int) {
    |m| <= 1 || WireBytes(m) <= maxBytes
  }

  lemma {:induction false} GroupInside<T>(groups: seq<seq<T>>, k: nat)
    requires k < |groups|
    ensures Reach(groups, k) <= Reach(groups, k + 1) <= |Flatten(groups)|
    ensures groups[k] == Flatten(groups)[Reach(groups, k)..Reach(groups, k + 1)]
  {
    FlattenPrefix(groups, k + 1);
    assert groups[..k + 1][..k] == groups[..k];
  }

  lemma PiecesFit(m: Names, maxBytes: int, groups: seq<Names>, keys: seq<seq<int32>>, i: nat)
    requires Cuts(m, maxBytes, groups, keys) && i < |groups|
    ensures PieceFits(groups[i], maxBytes)
  {
    hide WireBytes, Bytes, Sizes, Flatten, Greedy;
    GroupInside(keys, i);
    var all := Flatten(keys);
    forall k | k in keys[i] ensures k in m {
      assert k in all;
    }
    WireBytesOfKeys(m, keys[i]);
  }

  /** A message without the small maps holds one entry or at most `maxBytes`. */
  ghost predicate MessageFits(meta: Metadata, maxBytes: int) {
    && NoSmallMaps(meta) && meta.fileHashes == map[]
    && (meta.targetNames == map[] || meta.attributeValues == map[])
    && PieceFits(meta.targetNames, maxBytes) && PieceFits(meta.attributeValues, maxBytes)
  }

  lemma MessagesFit(maxBytes: int, targets: seq<Names>, values: seq<Names>, i: nat)
    requires i < |targets| + |values|
    requires forall k | 0 <= k < |targets| :: PieceFits(targets[k], maxBytes)
    requires forall k | 0 <= k < |values| :: PieceFits(values[k], maxBytes)
    ensures MessageFits((TargetMessages(targets) + ValueMessages(values))[i], maxBytes)
  {
    hide WireBytes;
  }

  lemma AllPiecesFit(m: Names, maxBytes: int, groups: seq<Names>, keys: seq<seq<int32>>)
    requires if m == map[] then groups == [] else Cuts(m, maxBytes, groups, keys)
    ensures forall k | 0 <= k < |groups| :: PieceFits(groups[k], maxBytes)
  {
    hide PieceFits, Cuts;
    forall k | 0 <= k < |groups| ensures PieceFits(groups[k], maxBytes) {
      PiecesFit(m, maxBytes, groups, keys, k);
    }
  }

  lemma MapIsMeasured(field: nat, m: Names, order: seq<int32>)
    requires field < 16 && Lists(order, m.Keys)
    ensures |TextMap(field, m, order)| == WireBytes(m)
  {
    hide WireBytes, TextMap;
    WireBytesOfKeys(m, order);
    EntriesMeasured(field, m, order);
    assert Restrict(m, order) == m;
  }

  lemma {:induction false} EntriesMeasured(field: nat, m: Names, order: seq<int32>)
    requires field < 16 && forall k | k in order :: k in m
    ensures |TextMap(field, m, order)| == Bytes(Sizes(m), order)
  {
    hide EntryBytes, TextEntry;
    if order != [] {
      var k := order[|order| - 1];
      EntriesMeasured(field, m, order[..|order| - 1]);
      EntryIsMeasured(field, k, m[k]);
      SizeOf(m, k);
    }
  }

  /** The pieces of a map, every one of them but single entries within the limit
      on the wire. */
  method SplitMapByBytes(m: Names, maxBytes: int) returns (groups: seq<Names>, ghost keys: seq<seq<int32>>)
    ensures m == map[] ==> groups == [] && keys == []
    ensures m != map[] ==> Cuts(m, maxBytes, groups, keys)
    ensures forall i | 0 <= i < |groups| :: groups[i] != map[]
    ensures forall i, order | 0 <= i < |groups| && |groups[i]| > 1 && Lists(order, groups[i].Keys) ::
        |TextMap(1, groups[i], order)| <= maxBytes && |TextMap(5, groups[i], order)| <= maxBytes
  {
    hide Cuts, WireBytes, TextMap;
    groups, keys := CutByBytes(m, maxBytes);
    AllPiecesFit(m, maxBytes, groups, keys);
    forall i, order | 0 <= i < |groups| && |groups[i]| > 1 && Lists(order, groups[i].Keys)
      ensures |TextMap(1, groups[i], order)| <= maxBytes && |TextMap(5, groups[i], order)| <= maxBytes
    {
      MapIsMeasured(1, groups[i], order);
      MapIsMeasured(5, groups[i], order);
    }
  }

  // ---- The first message ----

  /** A piece that some greedy cut of `m` begins with: the next entry does not
      fit, unless nothing is left. */
  ghost predicate MayLead(m: Names, maxBytes: int, piece: Names) {
    && piece.Keys <= m.Keys && (forall k | k in piece :: piece[k] == m[k])
    && (m != map[] ==> piece != map[]) && PieceFits(piece, maxBytes)
    && (piece == m || exists k :: k in m && k !in piece && WireBytes(piece) + EntryBytes(k, m[k]) > maxBytes)
  }

  /** The map that the first message takes its piece from. */
  function Lead(meta: Metadata): Names {
    if meta.targetNames != map[] then meta.targetNames else meta.attributeValues
  }

  /** The first message: a piece of that map, and the small maps on top. */
  function FirstMessage(meta: Metadata, piece: Names): Metadata {
    SmallMaps(
      if meta.targetNames != map[] then NO_METADATA.(targetNames := piece)
      else NO_METADATA.(attributeValues := piece),
      meta)
  }

  ghost function SmallBytes(m: Metadata): nat {
    WireBytes(m.ruleTypes) + WireBytes(m.tags) + WireBytes(m.attributeNames)
  }

  /** What the entries of a message take. */
  ghost function MessageBytes(m: Metadata): nat {
    WireBytes(m.targetNames) + SmallBytes(m) + WireBytes(m.attributeValues)
  }

  /** They are the message's wire bytes, whatever the order of the entries. */
  lemma MessageIsMeasured(m: Metadata, o: Orders)
    requires ListsAll(o, m)
    ensures |MetadataWire(m, o)| == MessageBytes(m)
  {
    hide TextMap, WireBytes, Lists;
    MapIsMeasured(1, m.targetNames, o.targetNames);
    MapIsMeasured(2, m.ruleTypes, o.ruleTypes);
    MapIsMeasured(3, m.tags, o.tags);
    MapIsMeasured(4, m.attributeNames, o.attributeNames);
    MapIsMeasured(5, m.attributeValues, o.attributeValues);
  }

  /** A message that holds one entry or takes at most `maxBytes` on the wire. */
  ghost predicate SendsWithin(m: Metadata, maxBytes: int) {
    || |m.targetNames| + |m.ruleTypes| + |m.tags| + |m.attributeNames| + |m.attributeValues| == 1
    || forall o | ListsAll(o, m) :: |MetadataWire(m, o)| <= maxBytes
  }

  lemma FittingSendsWithin(m: Metadata, maxBytes: int)
    requires MessageFits(m, maxBytes) && !IsEmpty(m)
    ensures SendsWithin(m, maxBytes)
  {
    hide WireBytes, MetadataWire, ListsAll;
    NoWireBytes();
    forall o | ListsAll(o, m) ensures |MetadataWire(m, o)| == MessageBytes(m) {
      MessageIsMeasured(m, o);
    }
  }

  lemma RestrictedKeys(m: Names, keys: seq<int32>)
    requires forall k | k in keys :: k in m
    ensures Restrict(m, keys).Keys == (set k | k in keys) && forall k | k in keys :: Restrict(m, keys)[k] == m[k]
  {
  }

  /** The keys of a cut's groups are keys of the map, each once. */
  lemma GroupKeys(m: Names, maxBytes: int, groups: seq<Names>, keys: seq<seq<int32>>, i: nat)
    requires Cuts(m, maxBytes, groups, keys) && i < |groups|
    ensures keys[i] != [] && NoDuplicates(keys[i]) && forall k | k in keys[i] :: k in m
  {
    hide Bytes, Sizes, Flatten, Restrict;
    GroupInside(keys, i);
    var all := Flatten(keys);
    forall k | k in keys[i] ensures k in m {
      assert k in all;
    }
  }

  lemma NextKeyIsNew(keys: seq<seq<int32>>)
    requires |keys| > 1 && keys[1] != [] && NoDuplicates(Flatten(keys))
    ensures keys[1][0] !in keys[0]
  {
    GroupInside(keys, 0);
    GroupInside(keys, 1);
    var all, at := Flatten(keys), Reach(keys, 1);
    hide Flatten;
    assert all[at] == all[at..Reach(keys, 2)][0] == keys[1][0];
  }

  lemma OnlyGroup(m: Names, maxBytes: int, groups: seq<Names>, keys: seq<seq<int32>>)
    requires Cuts(m, maxBytes, groups, keys) && |groups| <= 1
    ensures if groups == [] then m == map[] else groups[0] == m
  {
    hide Bytes, Sizes, Greedy, IsSplit;
    CutsMakeUp(m, maxBytes, groups, keys);
    if |groups| == 1 {
      assert groups[..0] == [];
      JoinNothing(groups[0]);
    }
  }

  lemma FirstPieceLeads(m: Names, maxBytes: int, groups: seq<Names>, keys: seq<seq<int32>>)
    requires m != map[] && Cuts(m, maxBytes, groups, keys)
    ensures groups != [] && MayLead(m, maxBytes, groups[0])
  {
    if |groups| <= 1 {
      OnlyGroup(m, maxBytes, groups, keys);
    }
    PiecesFit(m, maxBytes, groups, keys, 0);
    GroupKeys(m, maxBytes, groups, keys, 0);
    RestrictedKeys(m, keys[0]);
    WireBytesOfKeys(m, keys[0]);
    if |groups| > 1 {
      GroupKeys(m, maxBytes, groups, keys, 1);
      var k := keys[1][0];
      NextKeyIsNew(keys);
      SizeOf(m, k);
      assert !Fits(Sizes(m), maxBytes, keys[0] + [keys[1][0]]);
      hide WireBytes, Bytes, Sizes, EntryBytes, Restrict, Cuts, PieceFits, Flatten;
      BytesGrow(Sizes(m), keys[0], k);
      assert k in m && k !in groups[0] && WireBytes(groups[0]) + EntryBytes(k, m[k]) > maxBytes;
    }
    hide WireBytes, Bytes, Sizes, EntryBytes, Restrict, PieceFits, Flatten;
    assert keys[0][0] in groups[0];
  }

  lemma FirstIsPiece(meta: Metadata, maxBytes: int, targets: seq<Names>, targetKeys: seq<seq<int32>>,
                     values: seq<Names>, valueKeys: seq<seq<int32>>)
    returns (piece: Names)
    requires if meta.targetNames == map[] then targets == [] else Cuts(meta.targetNames, maxBytes, targets, targetKeys)
    requires if meta.attributeValues == map[] then values == []
             else Cuts(meta.attributeValues, maxBytes, values, valueKeys)
    ensures MayLead(Lead(meta), maxBytes, piece)
    ensures var metas := TargetMessages(targets) + ValueMessages(values);
      FirstMessage(meta, piece) == SmallMaps(if metas == [] then NO_METADATA else metas[0], meta)
  {
    hide Cuts, WireBytes, EntryBytes;
    if meta.targetNames != map[] {
      FirstPieceLeads(meta.targetNames, maxBytes, targets, targetKeys);
      piece := targets[0];
    } else if meta.attributeValues != map[] {
      FirstPieceLeads(meta.attributeValues, maxBytes, values, valueKeys);
      piece := values[0];
    } else {
      piece := map[];
    }
  }

  // ---- Metadata ----

  /** The metadata of all messages together; later ones win. */
  function Merged(metas: seq<Metadata>): Metadata {
    if metas == [] then NO_METADATA
    else Merge(Merged(metas[..|metas| - 1]), metas[|metas| - 1])
  }

  function Merge(a: Metadata, b: Metadata): Metadata {
    Metadata(a.targetNames + b.targetNames, a.ruleTypes + b.ruleTypes, a.tags + b.tags,
             a.attributeNames + b.attributeNames,
             a.attributeValues + b.attributeValues, a.fileHashes + b.fileHashes)
  }

  function Union(groups: seq<Names>): Names {
    if groups == [] then map[] else Union(groups[..|groups| - 1]) + groups[|groups| - 1]
  }

  lemma {:induction false} RestrictedUnion(m: Names, groups: seq<Names>, keys: seq<seq<int32>>)
    requires |groups| == |keys| && forall i | 0 <= i < |groups| :: groups[i] == Restrict(m, keys[i])
    ensures Union(groups) == Restrict(m, Flatten(keys))
    decreases |groups|
  {
    if groups != [] {
      var gs, ks := groups[..|groups| - 1], keys[..|keys| - 1];
      RestrictedUnion(m, gs, ks);
      var last := keys[|keys| - 1];
      assert Flatten(keys) == Flatten(ks) + last;
      assert Restrict(m, Flatten(ks)) + Restrict(m, last) == Restrict(m, Flatten(ks) + last);
    }
  }

  /** The pieces of a map make up the map. */
  lemma CutsMakeUp(m: Names, maxBytes: int, groups: seq<Names>, keys: seq<seq<int32>>)
    requires Cuts(m, maxBytes, groups, keys)
    ensures Union(groups) == m
  {
    RestrictedUnion(m, groups, keys);
    assert Restrict(m, Flatten(keys)) == m;
  }

  function TargetMessages(groups: seq<Names>): seq<Metadata> {
    seq(|groups|, i requires 0 <= i < |groups| => NO_METADATA.(targetNames := groups[i]))
  }

  function ValueMessages(groups: seq<Names>): seq<Metadata> {
    seq(|groups|, i requires 0 <= i < |groups| => NO_METADATA.(attributeValues := groups[i]))
  }

  lemma {:induction false} MergedTargets(groups: seq<Names>)
    ensures Merged(TargetMessages(groups)) == NO_METADATA.(targetNames := Union(groups))
  {
    if groups != [] {
      var front := groups[..|groups| - 1];
      var metas := TargetMessages(groups);
      assert metas[..|metas| - 1] == TargetMessages(front);
      MergedTargets(front);
    }
  }

  lemma {:induction false} MergedAppend(a: seq<Metadata>, b: seq<Metadata>)
    ensures Merged(a + b) == Merge(Merged(a), Merged(b))
    decreases |b|
  {
    if b == [] {
      assert a + b == a;
      MergeNothing(Merged(a));
    } else {
      var front, last := b[..|b| - 1], b[|b| - 1];
      assert (a + b)[..|a + b| - 1] == a + front;
      MergedAppend(a, front);
      MergeTwice(Merged(a), Merged(front), last);
    }
  }

  lemma JoinNothing<K, V>(a: map<K, V>)
    ensures a + map[] == a && map[] + a == a
  {
  }

  lemma MergeNothing(a: Metadata)
    ensures Merge(a, NO_METADATA) == a && Merge(NO_METADATA, a) == a
  {
    JoinNothing(a.targetNames);
    JoinNothing(a.ruleTypes);
    JoinNothing(a.tags);
    JoinNothing(a.attributeNames);
    JoinNothing(a.attributeValues);
    JoinNothing(a.fileHashes);
  }

  lemma JoinTwice<K, V>(a: map<K, V>, b: map<K, V>, c: map<K, V>)
    ensures (a + b) + c == a + (b + c)
  {
  }

  lemma MergeTwice(a: Metadata, b: Metadata, c: Metadata)
    ensures Merge(Merge(a, b), c) == Merge(a, Merge(b, c))
  {
    JoinTwice(a.targetNames, b.targetNames, c.targetNames);
    JoinTwice(a.ruleTypes, b.ruleTypes, c.ruleTypes);
    JoinTwice(a.tags, b.tags, c.tags);
    JoinTwice(a.attributeNames, b.attributeNames, c.attributeNames);
    JoinTwice(a.attributeValues, b.attributeValues, c.attributeValues);
    JoinTwice(a.fileHashes, b.fileHashes, c.fileHashes);
  }

  lemma {:induction false} MergedValues(groups: seq<Names>)
    ensures Merged(ValueMessages(groups)) == NO_METADATA.(attributeValues := Union(groups))
  {
    if groups != [] {
      var front := groups[..|groups| - 1];
      var metas := ValueMessages(groups);
      assert metas[..|metas| - 1] == ValueMessages(front);
      MergedValues(front);
    }
  }

  /** The first message carries the small maps. */
  function WithSmallMaps(metas: seq<Metadata>, meta: Metadata): seq<Metadata>
    requires metas != []
  {
    metas[0 := metas[0].(ruleTypes := meta.ruleTypes, tags := meta.tags, attributeNames := meta.attributeNames)]
  }

  function SmallMaps(m: Metadata, meta: Metadata): Metadata {
    m.(ruleTypes := meta.ruleTypes, tags := meta.tags, attributeNames := meta.attributeNames)
  }

  predicate NoSmallMaps(m: Metadata) {
    m.ruleTypes == map[] && m.tags == map[] && m.attributeNames == map[]
  }

  lemma MergeSmallMaps(a: Metadata, b: Metadata, meta: Metadata)
    requires NoSmallMaps(b)
    ensures Merge(SmallMaps(a, meta), b) == SmallMaps(Merge(a, b), meta)
  {
    JoinNothing(meta.ruleTypes);
    JoinNothing(meta.tags);
    JoinNothing(meta.attributeNames);
  }

  lemma {:induction false} MergedWithSmallMaps(metas: seq<Metadata>, meta: Metadata)
    requires metas != [] && forall i | 0 <= i < |metas| :: NoSmallMaps(metas[i])
    ensures Merged(WithSmallMaps(metas, meta)) == SmallMaps(Merged(metas), meta)
  {
    hide Merge, NoSmallMaps;
    var metas' := WithSmallMaps(metas, meta);
    if |metas| == 1 {
      assert metas[..0] == metas'[..0] == [];
      MergeNothing(metas[0]);
      MergeNothing(metas'[0]);
    } else {
      var front, last := metas[..|metas| - 1], metas[|metas| - 1];
      assert metas'[..|metas'| - 1] == WithSmallMaps(front, meta) && metas'[|metas'| - 1] == last;
      MergedWithSmallMaps(front, meta);
      MergeSmallMaps(Merged(front), last, meta);
    }
  }

  function IsEmpty(m: Metadata): bool {
    |m.targetNames| == 0 && |m.ruleTypes| == 0 && |m.tags| == 0 && |m.attributeNames| == 0 && |m.attributeValues| == 0
  }

  lemma NamesNotEmpty(m: Names)
    requires m != map[]
    ensures |m| > 0
  {
  }

  lemma MessagesMerge(meta: Metadata, targets: seq<Names>, values: seq<Names>)
    requires Union(targets) == meta.targetNames && Union(values) == meta.attributeValues
    ensures var metas := TargetMessages(targets) + ValueMessages(values);
      var all := if metas == [] then [NO_METADATA] else metas;
      SmallMaps(Merged(all), meta) == meta.(fileHashes := map[])
  {
    MergedTargets(targets);
    MergedValues(values);
    MergedAppend(TargetMessages(targets), ValueMessages(values));
    var t, v := NO_METADATA.(targetNames := Union(targets)), NO_METADATA.(attributeValues := Union(values));
    JoinNothing(Union(targets));
    JoinNothing(Union(values));
    assert Merge(t, v) == NO_METADATA.(targetNames := Union(targets), attributeValues := Union(values));
    if TargetMessages(targets) + ValueMessages(values) == [] {
      assert targets == [] && values == [];
      assert [NO_METADATA][..0] == [];
      MergeNothing(NO_METADATA);
    }
  }

  lemma MessagesHoldSomething(targets: seq<Names>, values: seq<Names>, i: nat)
    requires i < |targets| + |values|
    requires (forall k | 0 <= k < |targets| :: targets[k] != map[])
    requires forall k | 0 <= k < |values| :: values[k] != map[]
    ensures !IsEmpty((TargetMessages(targets) + ValueMessages(values))[i])
  {
    NamesNotEmpty(if i < |targets| then targets[i] else values[i - |targets|]);
  }

  lemma MessagesHaveNoSmallMaps(targets: seq<Names>, values: seq<Names>)
    ensures forall i | 0 <= i < |targets| + |values| ::
        NoSmallMaps((TargetMessages(targets) + ValueMessages(values))[i])
  {
  }

  /** Cuts metadata into messages, at least one; merging them restores it but for
      the file hashes, which no message carries. Every message after the first is
      within the limit or one entry; the first is a piece that a cut may begin
      with, and the small maps whatever they take. It never fails. */
  method SplitMetadata(meta: Metadata, maxBytes: int) returns (r: Result<seq<Metadata>>)
    ensures r.Ok? && r.value != [] && Merged(r.value) == meta.(fileHashes := map[])
    ensures forall i | 0 < i < |r.value| ::
        MessageFits(r.value[i], maxBytes) && (r.value[i].targetNames != map[] || r.value[i].attributeValues != map[])
    ensures forall i | 0 < i < |r.value| :: SendsWithin(r.value[i], maxBytes)
    ensures exists piece :: MayLead(Lead(meta), maxBytes, piece) && r.value[0] == FirstMessage(meta, piece)
  {
    hide Cuts, Union, Merged, IsEmpty, SmallMaps, NoSmallMaps, TargetMessages, ValueMessages, PieceFits, MessageFits,
      MayLead, Lead, FirstMessage, SendsWithin;
    var targetGroups, targetKeys := SplitMapByBytes(meta.targetNames, maxBytes);
    var valueGroups, valueKeys := SplitMapByBytes(meta.attributeValues, maxBytes);
    GroupsMakeUp(meta.targetNames, maxBytes, targetGroups, targetKeys);
    GroupsMakeUp(meta.attributeValues, maxBytes, valueGroups, valueKeys);
    var metas := TargetMessages(targetGroups) + ValueMessages(valueGroups);
    MessageCount(targetGroups, valueGroups);
    MessagesMerge(meta, targetGroups, valueGroups);
    MessagesHaveNoSmallMaps(targetGroups, valueGroups);
    AllPiecesFit(meta.targetNames, maxBytes, targetGroups, targetKeys);
    AllPiecesFit(meta.attributeValues, maxBytes, valueGroups, valueKeys);
    forall i | 0 <= i < |metas|
      ensures !IsEmpty(metas[i]) && MessageFits(metas[i], maxBytes) && SendsWithin(metas[i], maxBytes)
      ensures metas[i].targetNames != map[] || metas[i].attributeValues != map[]
    {
      MessagesHoldSomething(targetGroups, valueGroups, i);
      MessagesFit(maxBytes, targetGroups, valueGroups, i);
      FittingSendsWithin(metas[i], maxBytes);
      HoldsNames(metas[i], maxBytes);
    }
    ghost var piece := FirstIsPiece(meta, maxBytes, targetGroups, targetKeys, valueGroups, valueKeys);
    if |metas| == 0 {
      metas := [NO_METADATA];
      NothingIsSmall();
    }
    MergedWithSmallMaps(metas, meta);
    ghost var plain := metas;
    metas := WithSmallMaps(metas, meta);
    assert forall i | 0 < i < |metas| :: metas[i] == plain[i];
    FirstIsSmall(plain, meta);
    assert metas[0] == FirstMessage(meta, piece);
    var i := 1;
    while i < |metas| {
      if IsEmpty(metas[i]) {
        return Err;
      }
      i := i + 1;
    }
    r := Ok(metas);
  }

  lemma HoldsNames(m: Metadata, maxBytes: int)
    requires !IsEmpty(m) && MessageFits(m, maxBytes)
    ensures m.targetNames != map[] || m.attributeValues != map[]
  {
    hide WireBytes;
  }

  lemma FirstIsSmall(metas: seq<Metadata>, meta: Metadata)
    requires metas != []
    ensures WithSmallMaps(metas, meta)[0] == SmallMaps(metas[0], meta)
  {
  }

  lemma MessageCount(targets: seq<Names>, values: seq<Names>)
    ensures |TargetMessages(targets)| == |targets| && |ValueMessages(values)| == |values|
  {
  }

  lemma NothingIsSmall()
    ensures NoSmallMaps(NO_METADATA)
  {
  }

  lemma GroupsMakeUp(m: Names, maxBytes: int, groups: seq<Names>, keys: seq<seq<int32>>)
    requires if m == map[] then groups == [] else Cuts(m, maxBytes, groups, keys)
    ensures Union(groups) == m
  {
    if m != map[] {
      CutsMakeUp(m, maxBytes, groups, keys);
    }
  }

  // ---- Merging a stream ----

  datatype Chunk = Chunk(targets: seq<OptimizedTarget>, metadata: Option<Metadata>)

  datatype Graph = Graph(targets: seq<OptimizedTarget>, metadata: Metadata)

  /** Where a target of this ID is, or the length. */
  function PlaceOf(list: seq<OptimizedTarget>, id: int32): (i: nat)
    ensures i <= |list| && (i < |list| ==> list[i].id == id) && forall k | 0 <= k < i :: list[k].id != id
  {
    if list == [] || list[0].id == id then 0 else 1 + PlaceOf(list[1..], id)
  }

  /** A later target replaces an earlier one of its ID, in the earlier's place. */
  function Put(list: seq<OptimizedTarget>, t: OptimizedTarget): seq<OptimizedTarget> {
    var i := PlaceOf(list, t.id);
    if i < |list| then list[i := t] else list + [t]
  }

  function PutAll(list: seq<OptimizedTarget>, ts: seq<OptimizedTarget>): seq<OptimizedTarget> {
    if ts == [] then list else Put(PutAll(list, ts[..|ts| - 1]), ts[|ts| - 1])
  }

  function MetadataOf(c: Chunk): Metadata {
    if c.metadata.Some? then c.metadata.value else NO_METADATA
  }

  function MergedGraph(chunks: seq<Chunk>): Graph {
    if chunks == [] then Graph([], NO_METADATA)
    else
      var g, c := MergedGraph(chunks[..|chunks| - 1]), chunks[|chunks| - 1];
      Graph(PutAll(g.targets, c.targets), Merge(g.metadata, MetadataOf(c)))
  }

  predicate DistinctIDs(list: seq<OptimizedTarget>) {
    forall i, j | 0 <= i < j < |list| :: list[i].id != list[j].id
  }

  /** `byID` finds every target of `list`. */
  predicate Indexes(byID: map<int32, nat>, list: seq<OptimizedTarget>) {
    && DistinctIDs(list)
    && (forall id | id in byID :: byID[id] < |list| && list[byID[id]].id == id)
    && (forall i | 0 <= i < |list| :: list[i].id in byID && byID[list[i].id] == i)
  }

  lemma PlaceByIndex(byID: map<int32, nat>, list: seq<OptimizedTarget>, id: int32)
    requires Indexes(byID, list)
    ensures PlaceOf(list, id) == if id in byID then byID[id] else |list|
  {
    var i := PlaceOf(list, id);
    if id in byID {
      assert i < |list| by {
        assert list[byID[id]].id == id;
      }
    }
  }

  lemma PutAt(byID: map<int32, nat>, list: seq<OptimizedTarget>, t: OptimizedTarget)
    requires Indexes(byID, list)
    ensures t.id in byID ==> byID[t.id] < |list| && Put(list, t) == list[byID[t.id] := t] && Indexes(byID, Put(list, t))
    ensures t.id !in byID ==> Put(list, t) == list + [t] && Indexes(byID[t.id := |list|], Put(list, t))
  {
    hide PlaceOf;
    PlaceByIndex(byID, list, t.id);
    if t.id in byID {
      SameIDs(byID, list, t);
    } else {
      OneMoreID(byID, list, t);
    }
  }

  lemma SameIDs(byID: map<int32, nat>, list: seq<OptimizedTarget>, t: OptimizedTarget)
    requires Indexes(byID, list) && t.id in byID
    ensures byID[t.id] < |list| && Indexes(byID, list[byID[t.id] := t])
  {
    var list' := list[byID[t.id] := t];
    assert forall i | 0 <= i < |list| :: list'[i].id == list[i].id;
  }

  lemma OneMoreID(byID: map<int32, nat>, list: seq<OptimizedTarget>, t: OptimizedTarget)
    requires Indexes(byID, list) && t.id !in byID
    ensures Indexes(byID[t.id := |list|], list + [t])
  {
    var list' := list + [t];
    assert forall i | 0 <= i < |list| :: list'[i] == list[i] && list[i].id != t.id;
  }

  method MergeChunks(chunks: seq<Chunk>) returns (g: Graph)
    ensures g == MergedGraph(chunks) && DistinctIDs(g.targets)
  {
    hide Indexes, Merge, Put;
    g := Graph([], NO_METADATA);
    var byID: map<int32, nat> := map[];
    NothingIndexed();
    var c := 0;
    assert chunks[..0] == [];
    while c < |chunks|
      invariant 0 <= c <= |chunks|
      invariant g == MergedGraph(chunks[..c]) && Indexes(byID, g.targets)
    {
      var chunk := chunks[c];
      assert chunks[..c + 1][..c] == chunks[..c];
      var list := g.targets;
      var i := 0;
      assert chunk.targets[..0] == [];
      while i < |chunk.targets|
        invariant 0 <= i <= |chunk.targets|
        invariant list == PutAll(g.targets, chunk.targets[..i]) && Indexes(byID, list)
      {
        var t := chunk.targets[i];
        PutAt(byID, list, t);
        assert chunk.targets[..i + 1][..i] == chunk.targets[..i];
        if t.id in byID {
          list := list[byID[t.id] := t];
        } else {
          byID := byID[t.id := |list|];
          list := list + [t];
        }
        i := i + 1;
      }
      assert chunk.targets[..i] == chunk.targets;
      MergeNothing(g.metadata);
      g := Graph(list, if chunk.metadata.Some? then Merge(g.metadata, chunk.metadata.value) else g.metadata);
      c := c + 1;
    }
    assert chunks[..c] == chunks;
    IndexedAreDistinct(byID, g.targets);
  }

  lemma NothingIndexed()
    ensures Indexes(map[], [])
  {
  }

  lemma IndexedAreDistinct(byID: map<int32, nat>, list: seq<OptimizedTarget>)
    requires Indexes(byID, list)
    ensures DistinctIDs(list)
  {
  }

  lemma NotPlaced(list: seq<OptimizedTarget>, t: OptimizedTarget)
    requires DistinctIDs(list + [t])
    ensures PlaceOf(list, t.id) == |list|
  {
    forall i | 0 <= i < |list| ensures list[i].id != t.id {
      assert (list + [t])[i] == list[i] && (list + [t])[|list|] == t;
    }
  }

  lemma DistinctPrefix(list: seq<OptimizedTarget>, rest: seq<OptimizedTarget>)
    requires DistinctIDs(list + rest)
    ensures DistinctIDs(list)
  {
    assert forall i | 0 <= i < |list| :: (list + rest)[i] == list[i];
  }

  lemma {:induction false} PutDistinct(list: seq<OptimizedTarget>, ts: seq<OptimizedTarget>)
    requires DistinctIDs(list + ts)
    ensures PutAll(list, ts) == list + ts
    decreases |ts|
  {
    if ts == [] {
      assert list + ts == list;
    } else {
      var front, last := ts[..|ts| - 1], ts[|ts| - 1];
      assert list + ts == (list + front) + [last];
      DistinctPrefix(list + front, [last]);
      PutDistinct(list, front);
      NotPlaced(list + front, last);
    }
  }

  /** The stream of a graph: its target groups, then its metadata messages. */
  function Stream(groups: seq<seq<OptimizedTarget>>, metas: seq<Metadata>): seq<Chunk> {
    seq(|groups|, i requires 0 <= i < |groups| => Chunk(groups[i], None)) +
        seq(|metas|, i requires 0 <= i < |metas| => Chunk([], Some(metas[i])))
  }

  lemma {:induction false} MergedTargetGroups(groups: seq<seq<OptimizedTarget>>)
    requires DistinctIDs(Flatten(groups))
    ensures MergedGraph(Stream(groups, [])) == Graph(Flatten(groups), NO_METADATA)
    decreases |groups|
  {
    var chunks := Stream(groups, []);
    if groups == [] {
      assert chunks == [];
    } else {
      var front := groups[..|groups| - 1];
      assert chunks[..|chunks| - 1] == Stream(front, []);
      DistinctPrefix(Flatten(front), groups[|groups| - 1]);
      MergedTargetGroups(front);
      PutDistinct(Flatten(front), groups[|groups| - 1]);
      MergeNothing(NO_METADATA);
    }
  }

  lemma {:induction false} MergedStream(groups: seq<seq<OptimizedTarget>>, metas: seq<Metadata>)
    requires DistinctIDs(Flatten(groups))
    ensures MergedGraph(Stream(groups, metas)) == Graph(Flatten(groups), Merged(metas))
    decreases |metas|
  {
    hide Merge, Flatten;
    var chunks := Stream(groups, metas);
    if metas == [] {
      MergedTargetGroups(groups);
    } else {
      var front := metas[..|metas| - 1];
      assert chunks[..|chunks| - 1] == Stream(groups, front);
      assert chunks[|chunks| - 1] == Chunk([], Some(metas[|metas| - 1]));
      MergedStream(groups, front);
    }
  }

  /** Splitting a graph's targets and metadata and merging the stream restores
      the graph, but for the file hashes. */
  lemma StreamRoundTrip(size: OptimizedTarget -> nat, maxBytes: int, targets: seq<OptimizedTarget>,
                        groups: seq<seq<OptimizedTarget>>, meta: Metadata, metas: seq<Metadata>)
    requires IsSplit(size, maxBytes, targets, groups) && Merged(metas) == meta.(fileHashes := map[])
    requires DistinctIDs(targets)
    ensures MergedGraph(Stream(groups, metas)) == Graph(targets, meta.(fileHashes := map[]))
  {
    MergedStream(groups, metas);
  }
}
