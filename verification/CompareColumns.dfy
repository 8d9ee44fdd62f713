/** What the comparison reports, read off the columns of the two snapshots. */
module CompareColumns {
  import opened Wrappers
  import opened ByteStrings
  import opened Distance
  import opened TargetDiff
  import opened Snapshot
  import opened ChangeScan
  import opened SeedScan
  import opened TgbDiff

  /** The stored hashes of two nodes differ: one is the empty hash, or their
      bytes do. */
  predicate HashDiffers(before: Snapshot, b: nat, after: Snapshot, i: nat)
    requires before.WellFormed() && b < before.NodeCount() && after.WellFormed() && i < after.NodeCount()
  {
    || before.HashEmpty(b) != after.HashEmpty(i)
    || (!after.HashEmpty(i) && before.Stride(b) != after.Stride(i))
  }

  /** Node `i` was there before, with another hash. */
  ghost predicate ChangedNodeAt(before: Snapshot, after: Snapshot, i: int)
    requires before.WellFormed() && after.WellFormed()
  {
    0 <= i < after.NodeCount() &&
    exists b: nat :: b < before.NodeCount() && before.keys[b] == after.keys[i] && HashDiffers(before, b, after, i)
  }

  /** Some attribute that the allowlist names, or any without a list, is on one
      side only or has two values. */
  ghost predicate AttributesDiffer(before: Snapshot, b: nat, after: Snapshot, i: nat, seedAttrs: Option<set<Text>>)
    requires b < |before.attrs| && i < |after.attrs|
  {
    exists k: Text ::
      && (seedAttrs.Some? ==> k in seedAttrs.value)
      && (k in before.attrs[b] || k in after.attrs[i])
      && (k in before.attrs[b] && k in after.attrs[i] ==> before.attrs[b][k] != after.attrs[i][k])
  }

  ghost predicate DependenciesDiffer(before: Snapshot, b: nat, after: Snapshot, i: nat)
    requires before.WellFormed() && b < before.NodeCount() && after.WellFormed() && i < after.NodeCount()
  {
    || |before.deps[b]| != |after.deps[i]|
    || exists d :: d in before.deps[b] && forall a | a in after.deps[i] :: after.keys[a] != before.keys[d]
  }

  ghost predicate IsSource(r: Snapshot, i: int)
    requires r.WellFormed()
  {
    0 <= i < r.NodeCount() && r.ruleTypeDict[r.ruleTypeIDs[i]] == Ascii("source file")
  }

  // ---- One node at a time ----

  lemma HashesAgree(before: Snapshot, b: nat, after: Snapshot, i: nat)
    requires before.WellFormed() && b < before.NodeCount() && after.WellFormed() && i < after.NodeCount()
    requires before.stride == after.stride
    ensures before.Hash(b) != after.Hash(i) <==> HashDiffers(before, b, after, i)
  {
    if !before.HashEmpty(b) && !after.HashEmpty(i) && HexEncode(before.Stride(b)) == HexEncode(after.Stride(i)) {
      HexEncodeInjective(before.Stride(b), after.Stride(i));
    }
    StrideLength(before, b);
    StrideLength(after, i);
  }

  lemma StrideLength(r: Snapshot, i: nat)
    requires r.WellFormed() && i < r.NodeCount()
    ensures |HexEncode(r.Stride(i))| > 0
  {
    assert (i + 1) * r.stride == i * r.stride + r.stride;
    MulGrows(i, i + 1, r.stride);
    MulGrows(i + 1, r.NodeCount(), r.stride);
  }

  lemma NodeChange(before: Snapshot, after: Snapshot, seedAttrs: Option<set<Text>>, gb: Graph, ga: Graph, i: nat)
    requires Views(before, after, seedAttrs, gb, ga) && i < after.NodeCount()
    ensures IsNew(gb, ga, after.Label(i)) <==> after.keys[i] !in before.keys
    ensures IsChanged(gb, ga, after.Label(i)) <==> ChangedNodeAt(before, after, i)
  {
    hide before.WellFormed, after.WellFormed, before.Hash, after.Hash, HashDiffers, Semantic, IsNew, IsChanged;
    NodeStatus(before, after, seedAttrs, gb, ga, i);
    var b := BeforeOf(before, after, i);
    if b >= 0 {
      HashesAgree(before, b, after, i);
    }
    forall c: nat | c < before.NodeCount() && before.keys[c] == after.keys[i] ensures c == b {
      LabelsMatchKeys(before, c, after, i);
      LabelsMatchKeys(before, b, after, i);
      LabelsAreUnique(before, c, b);
    }
  }

  lemma ColumnLengths(r: Snapshot)
    requires r.WellFormed()
    ensures |r.deps| == |r.attrs| == r.NodeCount()
  {
  }

  // ---- The seed test ----

  lemma ChangedDependency(before: Snapshot, after: Snapshot, seedAttrs: Option<set<Text>>, gb: Graph, ga: Graph, i: nat)
    requires Views(before, after, seedAttrs, gb, ga) && i < after.NodeCount()
    ensures after.Label(i) in ga
    ensures (exists n :: n in ga[after.Label(i)].dependencies && IsChanged(gb, ga, n)) <==>
            exists d :: d in after.deps[i] && ChangedNodeAt(before, after, d)
  {
    hide before.WellFormed, after.WellFormed, MaterializeTarget, Semantic, IsChanged, ChangedNodeAt;
    ColumnLengths(after);
    SemanticAt(after, seedAttrs, i);
    DependencyNames(after, seedAttrs, i);
    forall d | d in after.deps[i]
      ensures 0 <= d < after.NodeCount() && (IsChanged(gb, ga, after.Label(d)) <==> ChangedNodeAt(before, after, d))
    {
      NodeChange(before, after, seedAttrs, gb, ga, d);
    }
  }

  lemma DirtySourceDependency(before: Snapshot, after: Snapshot, seedAttrs: Option<set<Text>>, gb: Graph, ga: Graph,
                              i: nat)
    requires Views(before, after, seedAttrs, gb, ga) && i < after.NodeCount()
    ensures after.Label(i) in ga
    ensures (exists n ::
               n in ga[after.Label(i)].dependencies && IsDirty(gb, ga, n) && ga[n].ruleType == SOURCE_FILE) <==>
            exists d :: d in after.deps[i] && IsSource(after, d) &&
              (after.keys[d] !in before.keys || ChangedNodeAt(before, after, d))
  {
    hide before.WellFormed, after.WellFormed, MaterializeTarget, Semantic, IsChanged, IsNew, ChangedNodeAt, IsSource;
    ColumnLengths(after);
    SemanticAt(after, seedAttrs, i);
    DependencyNames(after, seedAttrs, i);
    forall d | d in after.deps[i]
      ensures 0 <= d < after.NodeCount() && after.Label(d) in ga
      ensures IsDirty(gb, ga, after.Label(d)) <==>
              after.keys[d] !in before.keys || ChangedNodeAt(before, after, d)
      ensures ga[after.Label(d)].ruleType == SOURCE_FILE <==> IsSource(after, d)
    {
      NodeChange(before, after, seedAttrs, gb, ga, d);
      SourceAt(after, seedAttrs, d);
    }
  }

  lemma SourceAt(r: Snapshot, seedAttrs: Option<set<Text>>, i: nat)
    requires r.WellFormed() && i < r.NodeCount()
    ensures r.Label(i) in Semantic(r, seedAttrs)
    ensures Semantic(r, seedAttrs)[r.Label(i)].ruleType == SOURCE_FILE <==> IsSource(r, i)
  {
    SemanticAt(r, seedAttrs, i);
  }

  lemma DependencySet(before: Snapshot, b: nat, after: Snapshot, i: nat, seedAttrs: Option<set<Text>>)
    requires before.WellFormed() && b < before.NodeCount() && after.WellFormed() && i < after.NodeCount()
    ensures DependencySetChanged(MaterializeTarget(before, b, seedAttrs), MaterializeTarget(after, i, seedAttrs)) <==>
            DependenciesDiffer(before, b, after, i)
  {
    DependencyNames(before, seedAttrs, b);
    DependencyNames(after, seedAttrs, i);
    DependencyCounts(before, seedAttrs, b);
    DependencyCounts(after, seedAttrs, i);
    hide before.WellFormed, after.WellFormed, MaterializeTarget, before.Label, after.Label;
    forall d | d in before.deps[b]
      ensures 0 <= d < before.NodeCount()
      ensures before.Label(d) in MaterializeTarget(after, i, seedAttrs).dependencies <==>
              exists a :: a in after.deps[i] && after.keys[a] == before.keys[d]
    {
      forall a | a in after.deps[i]
        ensures 0 <= a < after.NodeCount() && (before.Label(d) == after.Label(a) <==> before.keys[d] == after.keys[a])
      {
        LabelsMatchKeys(before, d, after, a);
      }
    }
  }

  lemma DependencyCounts(r: Snapshot, seedAttrs: Option<set<Text>>, i: nat)
    requires r.WellFormed() && i < r.NodeCount()
    ensures |MaterializeTarget(r, i, seedAttrs).dependencies| == |r.deps[i]|
  {
  }

  /** The attributes that are compared are those on the allowlist, or all. */
  lemma AttributeMaps(before: Snapshot, b: nat, after: Snapshot, i: nat, seedAttrs: Option<set<Text>>)
    requires before.WellFormed() && b < before.NodeCount() && after.WellFormed() && i < after.NodeCount()
    ensures MaterializeTarget(before, b, seedAttrs).attributes != MaterializeTarget(after, i, seedAttrs).attributes <==>
            AttributesDiffer(before, b, after, i, seedAttrs)
  {
    var m, n := MaterializeTarget(before, b, seedAttrs).attributes, MaterializeTarget(after, i, seedAttrs).attributes;
    AttributesAre(before, b, seedAttrs);
    AttributesAre(after, i, seedAttrs);
    hide MaterializeTarget, Allowed, before.WellFormed, after.WellFormed;
    if !AttributesDiffer(before, b, after, i, seedAttrs) {
      forall k ensures (k in m <==> k in n) && (k in m ==> m[k] == n[k]) {
      }
      assert m == n;
    }
  }

  lemma AttributesAre(r: Snapshot, i: nat, seedAttrs: Option<set<Text>>)
    requires r.WellFormed() && i < r.NodeCount()
    ensures var m := MaterializeTarget(r, i, seedAttrs).attributes;
      forall k ::
        && (k in m <==> k in r.attrs[i] && (seedAttrs.Some? ==> k in seedAttrs.value))
        && (k in m ==> m[k] == r.attrs[i][k])
  {
  }

  lemma KeptStatus(before: Snapshot, after: Snapshot, seedAttrs: Option<set<Text>>, gb: Graph, ga: Graph, b: nat,
                   i: nat)
    requires Views(before, after, seedAttrs, gb, ga) && b < before.NodeCount() && i < after.NodeCount()
    requires before.keys[b] == after.keys[i] && HashDiffers(before, b, after, i)
    ensures var name := after.Label(i);
      && name in gb && name in ga && gb[name] == MaterializeTarget(before, b, seedAttrs)
      && ga[name] == MaterializeTarget(after, i, seedAttrs) && IsChanged(gb, ga, name)
  {
    hide before.WellFormed, after.WellFormed, MaterializeTarget, Semantic, HashDiffers, IsChanged;
    assert ChangedNodeAt(before, after, i);
    NodeChange(before, after, seedAttrs, gb, ga, i);
    LabelsMatchKeys(before, b, after, i);
    SemanticAt(before, seedAttrs, b);
    SemanticAt(after, seedAttrs, i);
  }

  /** The node is a source file, has no changed dependency, has other
      dependencies, depends on a new or changed source file, or has an attribute
      that differs. */
  ghost predicate SeedColumns(before: Snapshot, b: nat, after: Snapshot, i: nat, seedAttrs: Option<set<Text>>)
    requires before.WellFormed() && b < before.NodeCount() && after.WellFormed() && i < after.NodeCount()
  {
    || IsSource(after, i)
    || !(exists d :: d in after.deps[i] && ChangedNodeAt(before, after, d))
    || DependenciesDiffer(before, b, after, i)
    || (exists d :: d in after.deps[i] && IsSource(after, d) &&
          (after.keys[d] !in before.keys || ChangedNodeAt(before, after, d)))
    || AttributesDiffer(before, b, after, i, seedAttrs)
  }

  /** That is the seed test of a node that was there before with another hash. */
  lemma SeedByColumns(before: Snapshot, after: Snapshot, seedAttrs: Option<set<Text>>, gb: Graph, ga: Graph, b: nat,
                      i: nat)
    requires Views(before, after, seedAttrs, gb, ga) && b < before.NodeCount() && i < after.NodeCount()
    requires before.keys[b] == after.keys[i] && HashDiffers(before, b, after, i)
    ensures IsSeed(gb, ga, after.Label(i)) <==> SeedColumns(before, b, after, i, seedAttrs)
  {
    hide before.WellFormed, after.WellFormed, before.Label, after.Label, MaterializeTarget, Semantic, ChangedNodeAt,
      DependenciesDiffer, DependencySetChanged, AttributesDiffer, IsSource, IsDirty, HashDiffers;
    KeptStatus(before, after, seedAttrs, gb, ga, b, i);
    ChangedDependency(before, after, seedAttrs, gb, ga, i);
    DirtySourceDependency(before, after, seedAttrs, gb, ga, i);
    SourceAt(after, seedAttrs, i);
    DependencySet(before, b, after, i, seedAttrs);
    AttributeMaps(before, b, after, i, seedAttrs);
  }

  // ---- The report ----

  /** The report has an entry of `name` with this type and seed mark. */
  ghost predicate Reports(entries: seq<Entry>, name: Text, changeType: ChangeType, seed: bool) {
    exists e :: e in entries && e.name == name && e.changeType == changeType && e.seed == seed
  }

  lemma EntryOfName(gb: Graph, ga: Graph, maxDistance: int, entries: seq<Entry>, name: Text)
    requires ReportHolds(gb, ga, maxDistance, entries)
    requires IsDirty(gb, ga, name) || IsDeleted(gb, ga, name)
    ensures Reports(entries, name, if name !in gb then New else if name !in ga then Deleted else Changed,
                    IsSeed(gb, ga, name))
  {
    hide IsSeed, StrictlyAscending;
    assert name in DirtyNames(gb, ga) + (gb.Keys - ga.Keys);
    var e :| e in entries && e.name == name;
    assert EntryHolds(gb, ga, maxDistance, e);
  }

  lemma NameOfEntry(gb: Graph, ga: Graph, maxDistance: int, entries: seq<Entry>, e: Entry)
    requires ReportHolds(gb, ga, maxDistance, entries) && e in entries
    ensures IsDirty(gb, ga, e.name) || IsDeleted(gb, ga, e.name)
    ensures e.seed ==> e.distance == 0
  {
    hide StrictlyAscending;
    assert e.name in DirtyNames(gb, ga) + (gb.Keys - ga.Keys);
    assert EntryHolds(gb, ga, maxDistance, e);
    if e.seed {
      AtZero(WalkDeps(ga.Keys, ga), Seeds(gb, ga), maxDistance, e.name, e.distance);
    }
  }

  lemma AtZero(deps: map<Text, seq<Text>>, seeds: set<Text>, maxDistance: int, name: Text, distance: int)
    requires name in seeds && IsDistance(deps, seeds, maxDistance, name, distance)
    ensures distance == 0
  {
    assert IsDistance(deps, seeds, maxDistance, name, 0);
    DistanceUnique(deps, seeds, maxDistance, name, distance, 0);
  }

  lemma NewByColumns(before: Snapshot, after: Snapshot, maxDistance: int, seedAttrs: Option<set<Text>>,
                     entries: seq<Entry>, i: nat)
    requires before.WellFormed() && after.WellFormed() && before.stride == after.stride
    requires ReportHolds(Semantic(before, seedAttrs), Semantic(after, seedAttrs), maxDistance, entries)
    requires i < after.NodeCount() && after.keys[i] !in before.keys
    ensures Reports(entries, after.Label(i), New, true)
  {
    hide before.WellFormed, after.WellFormed, ReportHolds, Semantic, Reports, after.Label;
    var gb, ga := Semantic(before, seedAttrs), Semantic(after, seedAttrs);
    NodeChange(before, after, seedAttrs, gb, ga, i);
    EntryOfName(gb, ga, maxDistance, entries, after.Label(i));
  }

  lemma DeletedByColumns(before: Snapshot, after: Snapshot, maxDistance: int, seedAttrs: Option<set<Text>>,
                         entries: seq<Entry>, b: nat)
    requires before.WellFormed() && after.WellFormed() && before.stride == after.stride
    requires ReportHolds(Semantic(before, seedAttrs), Semantic(after, seedAttrs), maxDistance, entries)
    requires b < before.NodeCount() && before.keys[b] !in after.keys
    ensures Reports(entries, before.Label(b), Deleted, true)
  {
    hide before.WellFormed, after.WellFormed, ReportHolds, Semantic, Reports, before.Label;
    var gb, ga := Semantic(before, seedAttrs), Semantic(after, seedAttrs);
    DeletedStatus(before, after, seedAttrs, gb, ga, b);
    EntryOfName(gb, ga, maxDistance, entries, before.Label(b));
  }

  lemma KeptByColumns(before: Snapshot, after: Snapshot, maxDistance: int, seedAttrs: Option<set<Text>>,
                      entries: seq<Entry>, b: nat, i: nat)
    requires before.WellFormed() && after.WellFormed() && before.stride == after.stride
    requires ReportHolds(Semantic(before, seedAttrs), Semantic(after, seedAttrs), maxDistance, entries)
    requires b < before.NodeCount() && i < after.NodeCount() && before.keys[b] == after.keys[i]
    ensures HashDiffers(before, b, after, i) ==>
      Reports(entries, after.Label(i), Changed, SeedColumns(before, b, after, i, seedAttrs))
    ensures !HashDiffers(before, b, after, i) ==> forall e | e in entries :: e.name != after.Label(i)
  {
    hide before.WellFormed, after.WellFormed, ReportHolds, Semantic, Reports, before.Label, after.Label, HashDiffers,
      SeedColumns, IsSeed, before.Hash, after.Hash;
    var gb, ga, name := Semantic(before, seedAttrs), Semantic(after, seedAttrs), after.Label(i);
    NodeChange(before, after, seedAttrs, gb, ga, i);
    LabelsMatchKeys(before, b, after, i);
    SemanticAt(before, seedAttrs, b);
    SemanticAt(after, seedAttrs, i);
    if HashDiffers(before, b, after, i) {
      SeedByColumns(before, after, seedAttrs, gb, ga, b, i);
      assert ChangedNodeAt(before, after, i);
      EntryOfName(gb, ga, maxDistance, entries, name);
    } else {
      OnlyNodeBefore(before, b, after, i);
      forall e | e in entries ensures e.name != name {
        NameOfEntry(gb, ga, maxDistance, entries, e);
      }
    }
  }

  lemma OnlyNodeBefore(before: Snapshot, b: nat, after: Snapshot, i: nat)
    requires before.WellFormed() && after.WellFormed() && b < before.NodeCount() && i < after.NodeCount()
    requires before.keys[b] == after.keys[i]
    ensures ChangedNodeAt(before, after, i) <==> HashDiffers(before, b, after, i)
  {
    hide before.WellFormed, after.WellFormed, HashDiffers;
    forall c: nat | c < before.NodeCount() && before.keys[c] == after.keys[i] ensures c == b {
      LabelsMatchKeys(before, c, after, i);
      LabelsMatchKeys(before, b, after, i);
      LabelsAreUnique(before, c, b);
    }
  }

  /** A node that is new is reported as a new seed, one that is gone as a deleted
      seed, one that has another hash as changed with the seed mark that its
      columns say, and nothing else. Every seed is at distance 0. */
  lemma ReportByColumns(before: Snapshot, after: Snapshot, maxDistance: int, seedAttrs: Option<set<Text>>,
                        entries: seq<Entry>)
    requires before.WellFormed() && after.WellFormed() && before.stride == after.stride
    requires ReportHolds(Semantic(before, seedAttrs), Semantic(after, seedAttrs), maxDistance, entries)
    ensures forall i: nat | i < after.NodeCount() && after.keys[i] !in before.keys ::
        Reports(entries, after.Label(i), New, true)
    ensures forall b: nat | b < before.NodeCount() && before.keys[b] !in after.keys ::
        Reports(entries, before.Label(b), Deleted, true)
    ensures forall b: nat, i: nat | b < before.NodeCount() && i < after.NodeCount() &&
        before.keys[b] == after.keys[i] ::
        if HashDiffers(before, b, after, i) then
          Reports(entries, after.Label(i), Changed, SeedColumns(before, b, after, i, seedAttrs))
        else forall e | e in entries :: e.name != after.Label(i)
    ensures forall e | e in entries ::
        (exists i: nat :: i < after.NodeCount() && after.Label(i) == e.name) ||
        (exists b: nat :: b < before.NodeCount() && before.Label(b) == e.name)
    ensures forall e | e in entries && e.seed :: e.distance == 0
  {
    hide before.WellFormed, after.WellFormed, before.Label, after.Label, ReportHolds, Semantic, Reports, HashDiffers,
      SeedColumns, IsDirty, IsDeleted;
    var gb, ga := Semantic(before, seedAttrs), Semantic(after, seedAttrs);
    forall i: nat | i < after.NodeCount() && after.keys[i] !in before.keys
      ensures Reports(entries, after.Label(i), New, true)
    {
      NewByColumns(before, after, maxDistance, seedAttrs, entries, i);
    }
    forall b: nat | b < before.NodeCount() && before.keys[b] !in after.keys
      ensures Reports(entries, before.Label(b), Deleted, true)
    {
      DeletedByColumns(before, after, maxDistance, seedAttrs, entries, b);
    }
    forall b: nat, i: nat | b < before.NodeCount() && i < after.NodeCount() && before.keys[b] == after.keys[i]
      ensures if HashDiffers(before, b, after, i) then
                Reports(entries, after.Label(i), Changed, SeedColumns(before, b, after, i, seedAttrs))
              else forall e | e in entries :: e.name != after.Label(i)
    {
      KeptByColumns(before, after, maxDistance, seedAttrs, entries, b, i);
    }
    forall e | e in entries
      ensures e.seed ==> e.distance == 0
      ensures (exists i: nat :: i < after.NodeCount() && after.Label(i) == e.name) ||
              (exists b: nat :: b < before.NodeCount() && before.Label(b) == e.name)
    {
      NameOfEntry(gb, ga, maxDistance, entries, e);
      NamesAreLabels(before, after, seedAttrs, e.name);
    }
  }

  lemma NamesAreLabels(before: Snapshot, after: Snapshot, seedAttrs: Option<set<Text>>, name: Text)
    requires before.WellFormed() && after.WellFormed()
    requires var gb, ga := Semantic(before, seedAttrs), Semantic(after, seedAttrs);
      IsDirty(gb, ga, name) || IsDeleted(gb, ga, name)
    ensures (exists i: nat :: i < after.NodeCount() && after.Label(i) == name) ||
            (exists b: nat :: b < before.NodeCount() && before.Label(b) == name)
  {
    hide before.WellFormed, after.WellFormed, MaterializeTarget;
    if name in Semantic(after, seedAttrs) {
      assert after.Label(NodeOf(after, name)) == name;
    } else {
      assert before.Label(NodeOf(before, name)) == name;
    }
  }
}
