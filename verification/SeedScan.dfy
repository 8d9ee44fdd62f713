/** Phase 2: which changed nodes are direct changes, decided on node indices.
    The contracts speak of the reference's label-keyed graphs. */
module SeedScan {
  import opened Wrappers
  import opened ByteStrings
  import opened TargetDiff
  import opened Snapshot
  import opened Align
  import opened HashDiff
  import opened ChangeScan

  /** The before-to-after projection: equal keys, or -1 for an absent one. */
  ghost predicate Projects(before: Snapshot, after: Snapshot, beforeToAfter: seq<int>) {
    && |beforeToAfter| == before.NodeCount()
    && forall b | 0 <= b < |beforeToAfter| ::
         if beforeToAfter[b] == -1 then before.keys[b] !in after.keys
         else 0 <= beforeToAfter[b] < after.NodeCount() && after.keys[beforeToAfter[b]] == before.keys[b]
  }

  lemma MappedRunsProject(before: Snapshot, after: Snapshot, runs: seq<Run>, beforeToAfter: seq<int>)
    requires Ascending(before.keys) && RunsPair(before, after, runs) && |beforeToAfter| == before.NodeCount()
    requires forall b | 0 <= b < before.NodeCount() :: MapsTo(runs, b, beforeToAfter[b])
    ensures Projects(before, after, beforeToAfter)
  {
    forall b | 0 <= b < |beforeToAfter|
      ensures if beforeToAfter[b] == -1 then before.keys[b] !in after.keys
              else 0 <= beforeToAfter[b] < after.NodeCount() && after.keys[beforeToAfter[b]] == before.keys[b]
    {
      if before.keys[b] in after.keys {
        var i := IndexOf(after.keys, before.keys[b]);
        BeforeOfKey(before, after, b, i);
        assert InRuns(runs, b, i);
      }
    }
  }

  // ---- Index facts as label facts ----

  /** The label-keyed views of both snapshots. */
  ghost predicate Views(before: Snapshot, after: Snapshot, seedAttrs: Option<set<Text>>, gb: Graph, ga: Graph) {
    && before.WellFormed() && after.WellFormed() && before.stride == after.stride
    && gb == Semantic(before, seedAttrs) && ga == Semantic(after, seedAttrs)
  }

  lemma NodeStatus(before: Snapshot, after: Snapshot, seedAttrs: Option<set<Text>>, gb: Graph, ga: Graph, i: nat)
    requires Views(before, after, seedAttrs, gb, ga) && i < after.NodeCount()
    ensures after.Label(i) in ga && ga[after.Label(i)] == MaterializeTarget(after, i, seedAttrs)
    ensures var b := BeforeOf(before, after, i);
            && (b == -1 <==> IsNew(gb, ga, after.Label(i)))
            && (b >= 0 ==>
              before.Label(b) == after.Label(i) && after.Label(i) in gb &&
              gb[after.Label(i)] == MaterializeTarget(before, b, seedAttrs))
            && (b >= 0 && before.Hash(b) != after.Hash(i) <==> IsChanged(gb, ga, after.Label(i)))
  {
    hide before.WellFormed, after.WellFormed;
    SemanticAt(after, seedAttrs, i);
    var name := after.Label(i);
    if name in gb {
      var b := NodeOf(before, name);
      LabelsMatchKeys(before, b, after, i);
      assert before.keys[b] in before.keys;
    }
    var b := BeforeOf(before, after, i);
    if b >= 0 {
      LabelsMatchKeys(before, b, after, i);
      SemanticAt(before, seedAttrs, b);
    }
  }

  lemma DeletedStatus(before: Snapshot, after: Snapshot, seedAttrs: Option<set<Text>>, gb: Graph, ga: Graph, b: nat)
    requires Views(before, after, seedAttrs, gb, ga) && b < before.NodeCount()
    ensures before.Label(b) in gb && gb[before.Label(b)] == MaterializeTarget(before, b, seedAttrs)
    ensures before.keys[b] !in after.keys <==> IsDeleted(gb, ga, before.Label(b))
  {
    hide before.WellFormed, after.WellFormed;
    SemanticAt(before, seedAttrs, b);
    var name := before.Label(b);
    if name in ga {
      LabelsMatchKeys(before, b, after, NodeOf(after, name));
    }
    if before.keys[b] in after.keys {
      var i := IndexOf(after.keys, before.keys[b]);
      LabelsMatchKeys(before, b, after, i);
      SemanticAt(after, seedAttrs, i);
    }
  }

  /** An empty slot is an unchanged label. */
  lemma SlotStatus(before: Snapshot, after: Snapshot, seedAttrs: Option<set<Text>>, gb: Graph, ga: Graph,
                   slots: seq<ChangedNode?>, i: nat)
    requires Views(before, after, seedAttrs, gb, ga) && Scanned(before, after, slots) && i < after.NodeCount()
    ensures slots[i] != null <==> IsDirty(gb, ga, after.Label(i))
    ensures slots[i] != null && slots[i].kind == Changed <==> IsChanged(gb, ga, after.Label(i))
    ensures slots[i] != null ==>
      slots[i].afterIndex == i && slots[i].beforeIndex == BeforeOf(before, after, i) &&
          (slots[i].kind == Changed || slots[i].kind == New)
  {
    NodeStatus(before, after, seedAttrs, gb, ga, i);
    assert SlotFor(before, after, i, slots[i]);
  }

  lemma DependencyNames(r: Snapshot, seedAttrs: Option<set<Text>>, i: nat)
    requires r.WellFormed() && i < r.NodeCount()
    ensures forall d | d in r.deps[i] ::
        0 <= d < r.NodeCount() && r.Label(d) in MaterializeTarget(r, i, seedAttrs).dependencies
    ensures forall n | n in MaterializeTarget(r, i, seedAttrs).dependencies ::
        exists d :: d in r.deps[i] && 0 <= d < r.NodeCount() && r.Label(d) == n
  {
    var names := MaterializeTarget(r, i, seedAttrs).dependencies;
    forall d | d in r.deps[i] ensures 0 <= d < r.NodeCount() && r.Label(d) in names {
      var j :| 0 <= j < |r.deps[i]| && r.deps[i][j] == d;
      assert names[j] == r.Label(d);
    }
    forall n | n in names ensures exists d :: d in r.deps[i] && 0 <= d < r.NodeCount() && r.Label(d) == n {
      var j :| 0 <= j < |names| && names[j] == n;
      assert r.deps[i][j] in r.deps[i] && r.Label(r.deps[i][j]) == n;
    }
  }

  // ---- The classification helpers, on indices ----

  predicate ChangedAt(slots: seq<ChangedNode?>, d: int) {
    0 <= d < |slots| && slots[d] != null && slots[d].kind == Changed
  }

  method ChangedDepStatusIdx(beforeDeps: seq<int>, afterDeps: seq<int>, changedByAfter: array<ChangedNode?>)
    returns (anyChanged: bool, setChanged: bool)
    ensures anyChanged <==> exists d :: d in afterDeps && ChangedAt(changedByAfter[..], d)
    ensures setChanged <==> |beforeDeps| != |afterDeps| || exists d :: d in beforeDeps && (d < 0 || d !in afterDeps)
  {
    var lengthsMatch := |beforeDeps| == |afterDeps|;
    var depSet: set<int> := {};
    anyChanged := false;
    for k := 0 to |afterDeps|
      invariant anyChanged <==> exists d :: d in afterDeps[..k] && ChangedAt(changedByAfter[..], d)
      invariant lengthsMatch ==> forall d :: d in depSet <==> d in afterDeps[..k]
    {
      assert afterDeps[..k + 1] == afterDeps[..k] + [afterDeps[k]];
      var di := afterDeps[k];
      if di >= 0 && di < changedByAfter.Length {
        if changedByAfter[di] != null && changedByAfter[di].kind == Changed {
          assert ChangedAt(changedByAfter[..], di);
          anyChanged := true;
        }
      }
      if lengthsMatch {
        depSet := depSet + {di};
      }
    }
    assert afterDeps[..|afterDeps|] == afterDeps;
    if !lengthsMatch {
      return anyChanged, true;
    }
    for k := 0 to |beforeDeps|
      invariant forall j | 0 <= j < k :: beforeDeps[j] >= 0 && beforeDeps[j] in afterDeps
    {
      assert beforeDeps[k] in beforeDeps;
      if beforeDeps[k] < 0 || beforeDeps[k] !in depSet {
        return anyChanged, true;
      }
    }
    return anyChanged, false;
  }

  predicate DirtySource(slots: seq<ChangedNode?>, ruleTypeIDs: seq<int>, sourceID: int, d: int) {
    0 <= d < |slots| && slots[d] != null && d < |ruleTypeIDs| && ruleTypeIDs[d] == sourceID
  }

  method HasChangedSrcFileDepIdx(afterDeps: seq<int>, changedByAfter: array<ChangedNode?>, ruleTypeIDs: seq<int>,
                                 sourceID: int)
    returns (found: bool)
    ensures found <==>
            sourceID >= 0 && exists d :: d in afterDeps && DirtySource(changedByAfter[..], ruleTypeIDs, sourceID, d)
  {
    if sourceID < 0 {
      return false;
    }
    for k := 0 to |afterDeps|
      invariant forall j | 0 <= j < k :: !DirtySource(changedByAfter[..], ruleTypeIDs, sourceID, afterDeps[j])
    {
      var di := afterDeps[k];
      if di < 0 || di >= changedByAfter.Length {
        continue;
      }
      if changedByAfter[di] == null {
        continue;
      }
      if di < |ruleTypeIDs| && ruleTypeIDs[di] == sourceID {
        assert DirtySource(changedByAfter[..], ruleTypeIDs, sourceID, di);
        return true;
      }
    }
    return false;
  }

  /** The dictionary ID of a rule type, or -1 when no entry names it. */
  method RuleTypeDictID(r: Snapshot, name: Text) returns (id: int)
    ensures -1 <= id < |r.ruleTypeDict|
    ensures id >= 0 ==> r.ruleTypeDict[id] == name
    ensures id == -1 ==> name !in r.ruleTypeDict
  {
    for i := 0 to |r.ruleTypeDict|
      invariant name !in r.ruleTypeDict[..i]
    {
      if r.ruleTypeDict[i] == name {
        return i;
      }
      assert r.ruleTypeDict[..i + 1] == r.ruleTypeDict[..i] + [r.ruleTypeDict[i]];
    }
    assert r.ruleTypeDict[..|r.ruleTypeDict|] == r.ruleTypeDict;
    return -1;
  }

  /** Rule types compare as strings exactly as their dictionary IDs do. */
  lemma RuleTypeById(r: Snapshot, id: int, i: nat)
    requires r.WellFormed() && i < r.NodeCount() && -1 <= id < |r.ruleTypeDict|
    requires id >= 0 ==> r.ruleTypeDict[id] == SOURCE_FILE
    requires id == -1 ==> SOURCE_FILE !in r.ruleTypeDict
    ensures r.RuleType(i) == SOURCE_FILE <==> id >= 0 && r.ruleTypeIDs[i] == id
  {
    assert r.ruleTypeDict[r.ruleTypeIDs[i]] in r.ruleTypeDict;
  }

  function DecodeAttrs(r: Snapshot, node: nat, seedAttrs: Option<set<Text>>): (attrs: map<Text, Text>)
    requires node < |r.attrs|
    ensures attrs == Allowed(r.attrs[node], seedAttrs)
  {
    var raw := r.attrs[node];
    if |raw| == 0 then map[]
    else if seedAttrs.None? then raw
    else map k | k in raw && k in seedAttrs.value :: raw[k]
  }

  predicate IsProjection(beforeDeps: seq<int>, beforeToAfter: seq<int>, mapped: seq<int>) {
    && |mapped| == |beforeDeps|
    && forall k | 0 <= k < |mapped| ::
          0 <= beforeDeps[k] && mapped[k] ==
              (if beforeDeps[k] < |beforeToAfter| then beforeToAfter[beforeDeps[k]] else -1)
  }

  method ProjectDeps(beforeDeps: seq<int>, beforeToAfter: array<int>) returns (mapped: seq<int>)
    requires forall d | d in beforeDeps :: d >= 0
    ensures IsProjection(beforeDeps, beforeToAfter[..], mapped)
  {
    mapped := [];
    for k := 0 to |beforeDeps|
      invariant IsProjection(beforeDeps[..k], beforeToAfter[..], mapped)
    {
      assert beforeDeps[k] in beforeDeps;
      var bd := beforeDeps[k];
      mapped := mapped + [if bd < beforeToAfter.Length then beforeToAfter[bd] else -1];
    }
    assert beforeDeps[..|beforeDeps|] == beforeDeps;
  }

  // ---- The helpers decide as the reference does ----

  lemma AnyChangedAgrees(before: Snapshot, after: Snapshot, seedAttrs: Option<set<Text>>, gb: Graph, ga: Graph,
                         slots: seq<ChangedNode?>, i: nat)
    requires Views(before, after, seedAttrs, gb, ga) && Scanned(before, after, slots) && i < after.NodeCount()
    ensures after.Label(i) in ga
    ensures (exists d :: d in after.deps[i] && ChangedAt(slots, d)) <==>
            (exists n :: n in ga[after.Label(i)].dependencies && IsChanged(gb, ga, n))
  {
    NodeStatus(before, after, seedAttrs, gb, ga, i);
    DependencyNames(after, seedAttrs, i);
    var row := after.deps[i];
    forall d | d in row
      ensures 0 <= d < after.NodeCount() && (ChangedAt(slots, d) <==> IsChanged(gb, ga, after.Label(d)))
    {
      SlotStatus(before, after, seedAttrs, gb, ga, slots, d);
    }
  }

  lemma DirtySourceAt(before: Snapshot, after: Snapshot, seedAttrs: Option<set<Text>>, gb: Graph, ga: Graph,
                      slots: seq<ChangedNode?>, id: int, d: nat)
    requires Views(before, after, seedAttrs, gb, ga) && Scanned(before, after, slots) && d < after.NodeCount()
    requires -1 <= id < |after.ruleTypeDict|
    requires id >= 0 ==> after.ruleTypeDict[id] == SOURCE_FILE
    requires id == -1 ==> SOURCE_FILE !in after.ruleTypeDict
    ensures after.Label(d) in ga
    ensures id >= 0 && DirtySource(slots, after.ruleTypeIDs, id, d) <==>
            IsDirty(gb, ga, after.Label(d)) && ga[after.Label(d)].ruleType == SOURCE_FILE
  {
    SlotStatus(before, after, seedAttrs, gb, ga, slots, d);
    NodeStatus(before, after, seedAttrs, gb, ga, d);
    RuleTypeById(after, id, d);
  }

  lemma DirtySourceAgrees(before: Snapshot, after: Snapshot, seedAttrs: Option<set<Text>>, gb: Graph, ga: Graph,
                          slots: seq<ChangedNode?>, id: int, i: nat)
    requires Views(before, after, seedAttrs, gb, ga) && Scanned(before, after, slots) && i < after.NodeCount()
    requires -1 <= id < |after.ruleTypeDict|
    requires id >= 0 ==> after.ruleTypeDict[id] == SOURCE_FILE
    requires id == -1 ==> SOURCE_FILE !in after.ruleTypeDict
    ensures after.Label(i) in ga
    ensures (id >= 0 && exists d :: d in after.deps[i] && DirtySource(slots, after.ruleTypeIDs, id, d)) <==>
            (exists n :: n in ga[after.Label(i)].dependencies && IsDirty(gb, ga, n) && ga[n].ruleType == SOURCE_FILE)
  {
    hide Scanned;
    NodeStatus(before, after, seedAttrs, gb, ga, i);
    DependencyNames(after, seedAttrs, i);
    var row := after.deps[i];
    forall d | d in row
      ensures 0 <= d < after.NodeCount() && after.Label(d) in ga
      ensures id >= 0 && DirtySource(slots, after.ruleTypeIDs, id, d) <==>
              IsDirty(gb, ga, after.Label(d)) && ga[after.Label(d)].ruleType == SOURCE_FILE
    {
      DirtySourceAt(before, after, seedAttrs, gb, ga, slots, id, d);
    }
    hide *;
  }

  lemma SetChangedAgrees(before: Snapshot, after: Snapshot, seedAttrs: Option<set<Text>>, gb: Graph, ga: Graph,
                         beforeToAfter: seq<int>, mapped: seq<int>, b: nat, i: nat)
    requires Views(before, after, seedAttrs, gb, ga) && Projects(before, after, beforeToAfter)
    requires i < after.NodeCount() && b < before.NodeCount() && BeforeOf(before, after, i) == b
    requires IsProjection(before.deps[b], beforeToAfter, mapped)
    ensures after.Label(i) in ga && after.Label(i) in gb
    ensures (|mapped| != |after.deps[i]| || exists d :: d in mapped && (d < 0 || d !in after.deps[i])) <==>
            DependencySetChanged(gb[after.Label(i)], ga[after.Label(i)])
  {
    NodeStatus(before, after, seedAttrs, gb, ga, i);
    var bt, at := gb[after.Label(i)], ga[after.Label(i)];
    DependencyNames(after, seedAttrs, i);
    forall k | 0 <= k < |mapped|
      ensures mapped[k] < 0 || mapped[k] !in after.deps[i] <==> bt.dependencies[k] !in at.dependencies
    {
      var d := before.deps[b][k];
      assert d in before.deps[b];
      assert bt.dependencies[k] == before.Label(d);
      forall e | e in after.deps[i]
        ensures 0 <= e < after.NodeCount() && (after.Label(e) == before.Label(d) <==> after.keys[e] == before.keys[d])
      {
        LabelsMatchKeys(before, d, after, e);
      }
      if mapped[k] >= 0 {
        forall e | e in after.deps[i] && after.keys[e] == before.keys[d] ensures e == mapped[k] {
          KeyLessIrreflexive(after.keys[e]);
        }
      }
    }
    if d :| d in mapped && (d < 0 || d !in after.deps[i]) {
      var k :| 0 <= k < |mapped| && mapped[k] == d;
      assert bt.dependencies[k] in bt.dependencies;
    }
    if n :| n in bt.dependencies && n !in at.dependencies {
      var k :| 0 <= k < |bt.dependencies| && bt.dependencies[k] == n;
      assert mapped[k] in mapped;
    }
  }

  // ---- Classification ----

  /** A changed node is either deleted or sits in its own after-slot. */
  ghost predicate Tracked(before: Snapshot, after: Snapshot, slots: seq<ChangedNode?>, n: ChangedNode) {
    || (n.kind == Deleted && n.afterIndex == -1 && 0 <= n.beforeIndex < before.NodeCount() &&
        before.keys[n.beforeIndex] !in after.keys)
    || (0 <= n.afterIndex < |slots| == after.NodeCount() && slots[n.afterIndex] == n)
  }

  ghost function NameOf(before: Snapshot, after: Snapshot, n: ChangedNode): Text {
    if 0 <= n.afterIndex < after.NodeCount() then after.Label(n.afterIndex)
    else if 0 <= n.beforeIndex < before.NodeCount() then before.Label(n.beforeIndex)
    else []
  }

  ghost predicate TrackedList(before: Snapshot, after: Snapshot, slots: seq<ChangedNode?>, list: seq<ChangedNode>) {
    && (forall n | n in list :: Tracked(before, after, slots, n))
    && (forall i, j | 0 <= i < j < |list| :: list[i] != list[j])
  }

  lemma TrackedStatus(before: Snapshot, after: Snapshot, seedAttrs: Option<set<Text>>, gb: Graph, ga: Graph,
                      slots: seq<ChangedNode?>, n: ChangedNode)
    requires Views(before, after, seedAttrs, gb, ga) && Scanned(before, after, slots)
    requires Tracked(before, after, slots, n)
    ensures var name := NameOf(before, after, n);
            && (n.kind == Deleted <==> IsDeleted(gb, ga, name)) && (n.kind == New <==> IsNew(gb, ga, name))
            && (n.kind == Changed <==> IsChanged(gb, ga, name))
  {
    if n.afterIndex >= 0 {
      SlotStatus(before, after, seedAttrs, gb, ga, slots, n.afterIndex);
      NodeStatus(before, after, seedAttrs, gb, ga, n.afterIndex);
    } else {
      DeletedStatus(before, after, seedAttrs, gb, ga, n.beforeIndex);
    }
  }

  /** For a changed rule, the index tests together are the reference's test. */
  lemma SeedByParts(before: Snapshot, after: Snapshot, seedAttrs: Option<set<Text>>, gb: Graph, ga: Graph,
                    slots: seq<ChangedNode?>, beforeToAfter: seq<int>, mapped: seq<int>, id: int, i: nat, b: nat)
    requires Views(before, after, seedAttrs, gb, ga) && Scanned(before, after, slots)
    requires Projects(before, after, beforeToAfter)
    requires i < after.NodeCount() && b < before.NodeCount() && IsNode(slots[i], Changed, i, b)
    requires IsProjection(before.deps[b], beforeToAfter, mapped)
    requires -1 <= id < |after.ruleTypeDict|
    requires id >= 0 ==> after.ruleTypeDict[id] == SOURCE_FILE
    requires id == -1 ==> SOURCE_FILE !in after.ruleTypeDict
    requires !(id >= 0 && after.ruleTypeIDs[i] == id)
    ensures IsSeed(gb, ga, after.Label(i)) <==>
            || !(exists d :: d in after.deps[i] && ChangedAt(slots, d))
            || |mapped| != |after.deps[i]| || (exists d :: d in mapped && (d < 0 || d !in after.deps[i]))
            || (id >= 0 && exists d :: d in after.deps[i] && DirtySource(slots, after.ruleTypeIDs, id, d))
            || Allowed(before.attrs[b], seedAttrs) != Allowed(after.attrs[i], seedAttrs)
  {
    hide Views, Scanned, Projects, IsProjection, ChangedAt, DirtySource, Allowed, before.WellFormed, after.WellFormed,
      IsNode, IsChanged, IsDirty,
      DependencySetChanged;
    ChangedRule(before, after, seedAttrs, gb, ga, slots, id, i, b);
    AnyChangedAgrees(before, after, seedAttrs, gb, ga, slots, i);
    DirtySourceAgrees(before, after, seedAttrs, gb, ga, slots, id, i);
    SetChangedAgrees(before, after, seedAttrs, gb, ga, beforeToAfter, mapped, b, i);
    ChangedIsNotNew(gb, ga, after.Label(i));
  }

  lemma ChangedIsNotNew(gb: Graph, ga: Graph, name: Text)
    requires IsChanged(gb, ga, name)
    ensures !IsNew(gb, ga, name) && !IsDeleted(gb, ga, name)
  {
  }

  lemma ChangedRule(before: Snapshot, after: Snapshot, seedAttrs: Option<set<Text>>, gb: Graph, ga: Graph,
                    slots: seq<ChangedNode?>, id: int, i: nat, b: nat)
    requires Views(before, after, seedAttrs, gb, ga) && Scanned(before, after, slots)
    requires i < after.NodeCount() && b < before.NodeCount() && IsNode(slots[i], Changed, i, b)
    requires -1 <= id < |after.ruleTypeDict|
    requires id >= 0 ==> after.ruleTypeDict[id] == SOURCE_FILE
    requires id == -1 ==> SOURCE_FILE !in after.ruleTypeDict
    requires !(id >= 0 && after.ruleTypeIDs[i] == id)
    ensures BeforeOf(before, after, i) == b
    ensures var name := after.Label(i);
            && IsChanged(gb, ga, name) && ga[name].ruleType != SOURCE_FILE
            && gb[name].attributes == Allowed(before.attrs[b], seedAttrs)
            && ga[name].attributes == Allowed(after.attrs[i], seedAttrs)
  {
    SlotStatus(before, after, seedAttrs, gb, ga, slots, i);
    NodeStatus(before, after, seedAttrs, gb, ga, i);
    RuleTypeById(after, id, i);
  }

  /** The seed test of one changed node that is not a source file. */
  method ClassifyNode(before: Snapshot, after: Snapshot, seedAttrs: Option<set<Text>>, node: ChangedNode,
                      changedByAfter: array<ChangedNode?>,
                      beforeToAfter: array<int>, sourceID: int, ghost gb: Graph, ghost ga: Graph) returns (seed: bool)
    requires Views(before, after, seedAttrs, gb, ga) && Scanned(before, after, changedByAfter[..])
    requires Projects(before, after, beforeToAfter[..])
    requires 0 <= node.afterIndex < after.NodeCount() && changedByAfter[node.afterIndex] == node && node.kind == Changed
    requires -1 <= sourceID < |after.ruleTypeDict|
    requires sourceID >= 0 ==> after.ruleTypeDict[sourceID] == SOURCE_FILE
    requires sourceID == -1 ==> SOURCE_FILE !in after.ruleTypeDict
    requires !EarlySeed(node, after.ruleTypeIDs, sourceID)
    ensures seed == IsSeed(gb, ga, NameOf(before, after, node))
  {
    SlotStatus(before, after, seedAttrs, gb, ga, changedByAfter[..], node.afterIndex);
    assert 0 <= node.beforeIndex < before.NodeCount();
    var beforeDeps, afterDeps := before.deps[node.beforeIndex], after.deps[node.afterIndex];
    var mapped := ProjectDeps(beforeDeps, beforeToAfter);
    var afterAttrs := DecodeAttrs(after, node.afterIndex, seedAttrs);
    var beforeAttrs := DecodeAttrs(before, node.beforeIndex, seedAttrs);
    SeedByParts(before, after, seedAttrs, gb, ga, changedByAfter[..], beforeToAfter[..], mapped, sourceID,
                node.afterIndex, node.beforeIndex);
    hide *;
    var anyChanged, depsChanged := ChangedDepStatusIdx(mapped, afterDeps, changedByAfter);
    if !anyChanged || depsChanged {
      return true;
    }
    var sourceChanged := HasChangedSrcFileDepIdx(afterDeps, changedByAfter, after.ruleTypeIDs, sourceID);
    if sourceChanged {
      return true;
    }
    seed := AttributesChanged(beforeAttrs, afterAttrs);
  }

  /** New, deleted and source-file nodes need no further look. */
  predicate EarlySeed(node: ChangedNode, ruleTypeIDs: seq<int>, sourceID: int) {
    || node.kind == New || node.kind == Deleted
    || (node.afterIndex >= 0 && sourceID >= 0 && node.afterIndex < |ruleTypeIDs| &&
        ruleTypeIDs[node.afterIndex] == sourceID)
  }

  method MarkEarlySeeds(changedList: seq<ChangedNode>, ruleTypeIDs: seq<int>, sourceID: int)
    requires forall n | n in changedList :: !n.seed
    modifies changedList
    ensures forall n | n in changedList :: n.seed == EarlySeed(n, ruleTypeIDs, sourceID)
  {
    for k := 0 to |changedList|
      invariant forall n | n in changedList :: n.seed ==> EarlySeed(n, ruleTypeIDs, sourceID)
      invariant forall j | 0 <= j < k :: changedList[j].seed == EarlySeed(changedList[j], ruleTypeIDs, sourceID)
    {
      var node := changedList[k];
      if node.kind == New || node.kind == Deleted {
        node.seed := true;
        continue;
      }
      if node.afterIndex >= 0 && sourceID >= 0 && node.afterIndex < |ruleTypeIDs| &&
         ruleTypeIDs[node.afterIndex] == sourceID {
        node.seed := true;
      }
    }
  }

  /** Every tracked node ends up a seed exactly when the reference says so. */
  method ClassifySeeds(before: Snapshot, after: Snapshot, seedAttrs: Option<set<Text>>, changedList: seq<ChangedNode>,
                       changedByAfter: array<ChangedNode?>, beforeToAfter: array<int>, ghost gb: Graph, ghost ga: Graph)
    requires Views(before, after, seedAttrs, gb, ga) && Scanned(before, after, changedByAfter[..])
    requires Projects(before, after, beforeToAfter[..])
    requires TrackedList(before, after, changedByAfter[..], changedList)
    requires forall n | n in changedList :: !n.seed
    modifies changedList
    ensures forall n | n in changedList :: n.seed == IsSeed(gb, ga, NameOf(before, after, n))
  {
    var sourceID := RuleTypeDictID(after, SOURCE_FILE);
    MarkEarlySeeds(changedList, after.ruleTypeIDs, sourceID);
    ghost var slots := changedByAfter[..];
    forall n | n in changedList && EarlySeed(n, after.ruleTypeIDs, sourceID)
      ensures IsSeed(gb, ga, NameOf(before, after, n))
    {
      TrackedStatus(before, after, seedAttrs, gb, ga, slots, n);
      if n.kind == Changed {
        RuleTypeById(after, sourceID, n.afterIndex);
        NodeStatus(before, after, seedAttrs, gb, ga, n.afterIndex);
      }
    }
    hide *;
    for k := 0 to |changedList|
      invariant forall j | 0 <= j < |changedList| ::
        changedList[j].seed == if j < k then IsSeed(gb, ga, NameOf(before, after, changedList[j]))
                               else EarlySeed(changedList[j], after.ruleTypeIDs, sourceID)
    {
      var node := changedList[k];
      ListedNode(before, after, slots, changedList, k);
      EarlyKinds(node, after.ruleTypeIDs, sourceID);
      if node.seed || node.kind != Changed {
        continue;
      }
      var seed := ClassifyNode(before, after, seedAttrs, node, changedByAfter, beforeToAfter, sourceID, gb, ga);
      if seed {
        node.seed := true;
      }
    }
  }

  lemma EarlyKinds(n: ChangedNode, ruleTypeIDs: seq<int>, sourceID: int)
    ensures n.kind != Changed ==> EarlySeed(n, ruleTypeIDs, sourceID)
  {
  }

  lemma ListedNode(before: Snapshot, after: Snapshot, slots: seq<ChangedNode?>, list: seq<ChangedNode>, k: int)
    requires TrackedList(before, after, slots, list) && 0 <= k < |list|
    ensures list[k].kind == Changed ==>
      0 <= list[k].afterIndex < |slots| == after.NodeCount() && slots[list[k].afterIndex] == list[k]
    ensures forall j | 0 <= j < |list| && j != k :: list[j] != list[k]
  {
    assert Tracked(before, after, slots, list[k]);
  }
}
