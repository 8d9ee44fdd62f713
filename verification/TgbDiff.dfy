/** The index-space comparison end to end. Its contract is stated over the
    label-keyed graphs of the reference. */
module TgbDiff {
  import opened Wrappers
  import opened ByteStrings
  import opened Sorting
  import opened Distance
  import opened TargetDiff
  import opened Snapshot
  import opened Align
  import opened DigestAlign
  import opened HashDiff
  import opened ChangeScan
  import opened SeedScan
  import opened ReverseCsr
  import opened FastSearch

  datatype Entry = Entry(name: Text, changeType: ChangeType, distance: int, seed: bool)

  /** What one reported entry promises. Walks may enter any after-target. */
  ghost predicate EntryHolds(gb: Graph, ga: Graph, maxDistance: int, e: Entry) {
    && e.changeType == (if e.name !in gb then New else if e.name !in ga then Deleted else Changed)
    && e.seed == IsSeed(gb, ga, e.name)
    && IsDistance(WalkDeps(ga.Keys, ga), Seeds(gb, ga), maxDistance, e.name, e.distance)
  }

  ghost predicate StrictlyAscending(entries: seq<Entry>) {
    forall i, j | 0 <= i < j < |entries| :: Less(entries[i].name, entries[j].name)
  }

  /** The whole report: one entry a changed or deleted name, in label order. */
  ghost predicate ReportHolds(gb: Graph, ga: Graph, maxDistance: int, entries: seq<Entry>) {
    && StrictlyAscending(entries)
    && (forall e | e in entries :: EntryHolds(gb, ga, maxDistance, e))
    && (forall name ::
          (exists e :: e in entries && e.name == name) <==> name in DirtyNames(gb, ga) + (gb.Keys - ga.Keys))
  }

  // ---- Steps around the phases ----

  /** The forward rows, end to end. */
  method FlattenDeps(deps: seq<seq<int>>) returns (off: seq<int>, tgt: seq<int>)
    ensures IsCsr(off, tgt, deps)
  {
    off, tgt := [0], [];
    for i := 0 to |deps|
      invariant |off| == i + 1 && off[0] == 0 && off[i] == |tgt|
      invariant forall k | 0 <= k < i :: RowIs(off, tgt, k, deps[k])
    {
      ghost var off0, tgt0 := off, tgt;
      tgt := tgt + deps[i];
      off := off + [|tgt|];
      forall k | 0 <= k <= i ensures RowIs(off, tgt, k, deps[k]) {
        if k < i {
          assert RowIs(off0, tgt0, k, deps[k]);
          assert tgt[off[k]..off[k + 1]] == tgt0[off0[k]..off0[k + 1]];
        }
      }
    }
  }

  method MakeDeleted(deletedBefore: seq<int>) returns (nodes: seq<ChangedNode>)
    ensures |nodes| == |deletedBefore|
    ensures forall k | 0 <= k < |nodes| ::
        fresh(nodes[k]) && !nodes[k].seed && IsNode(nodes[k], Deleted, -1, deletedBefore[k])
  {
    nodes := [];
    for k := 0 to |deletedBefore|
      invariant |nodes| == k
      invariant forall j | 0 <= j < k ::
          fresh(nodes[j]) && !nodes[j].seed && IsNode(nodes[j], Deleted, -1, deletedBefore[j])
    {
      var node := new ChangedNode(Deleted, -1, deletedBefore[k]);
      nodes := nodes + [node];
    }
  }

  /** The filled slots, in index order. */
  function Filled(slots: seq<ChangedNode?>): (list: seq<ChangedNode>)
    ensures forall i | 0 <= i < |slots| && slots[i] != null :: slots[i] in list
    ensures forall i | 0 <= i < |list| :: list[i] in slots
  {
    if slots == [] then []
    else
      var last := slots[|slots| - 1];
      assert slots == slots[..|slots| - 1] + [last];
      Filled(slots[..|slots| - 1]) + (if last == null then [] else [last])
  }

  lemma {:induction false} FilledDistinct(slots: seq<ChangedNode?>)
    requires forall i | 0 <= i < |slots| && slots[i] != null :: slots[i].afterIndex == i
    ensures forall i, j | 0 <= i < j < |Filled(slots)| :: Filled(slots)[i] != Filled(slots)[j]
  {
    if slots != [] {
      var front := slots[..|slots| - 1];
      FilledDistinct(front);
      forall n | n in Filled(front) ensures n.afterIndex < |slots| - 1 {
        assert n in front;
        var i :| 0 <= i < |front| && front[i] == n;
        assert slots[i] == n;
      }
      var last := slots[|slots| - 1];
      if last != null {
        assert Filled(slots) == Filled(front) + [last];
        forall i | 0 <= i < |Filled(front)| ensures Filled(front)[i] != last {
          assert Filled(front)[i] in Filled(front);
        }
      }
    }
  }

  method CollectFilled(changedByAfter: array<ChangedNode?>) returns (list: seq<ChangedNode>)
    ensures list == Filled(changedByAfter[..])
  {
    list := [];
    for i := 0 to changedByAfter.Length
      invariant list == Filled(changedByAfter[..i])
    {
      assert changedByAfter[..i + 1][..i] == changedByAfter[..i];
      if changedByAfter[i] != null {
        list := list + [changedByAfter[i]];
      }
    }
    assert changedByAfter[..changedByAfter.Length] == changedByAfter[..];
  }

  /** Phase 1 in full. */
  method ScanHashes(before: Snapshot, after: Snapshot, runs: seq<Run>, insertedAfter: seq<int>)
    returns (changedByAfter: array<ChangedNode?>)
    requires before.WellFormed() && after.WellFormed() && before.stride == after.stride
    requires RunsPair(before, after, runs)
    requires forall i :: i in insertedAfter <==> 0 <= i < after.NodeCount() && BeforeOf(before, after, i) == -1
    ensures fresh(changedByAfter) && Scanned(before, after, changedByAfter[..])
    ensures forall i | 0 <= i < changedByAfter.Length && changedByAfter[i] != null ::
        fresh(changedByAfter[i]) && !changedByAfter[i].seed
  {
    changedByAfter := new ChangedNode?[after.NodeCount()](_ => null);
    MarkInserted(insertedAfter, changedByAfter);
    ghost var inserted := changedByAfter[..];
    assert OnlyNewMarked(before, after, inserted);
    CompareHashes(before, after, runs, changedByAfter);
    ghost var hashed := changedByAfter[..];
    assert |hashed| == after.NodeCount();
    CompareSentinels(before, after, runs, changedByAfter);
    MarksMean(before, after, runs, inserted, hashed, changedByAfter[..]);
  }

  lemma ListIsTracked(before: Snapshot, after: Snapshot, slots: seq<ChangedNode?>, deletedBefore: seq<int>,
                      deleted: seq<ChangedNode>)
    requires before.WellFormed() && after.WellFormed() && Scanned(before, after, slots)
    requires forall b :: b in deletedBefore <==> 0 <= b < before.NodeCount() && before.keys[b] !in after.keys
    requires forall i, j | 0 <= i < j < |deletedBefore| :: deletedBefore[i] != deletedBefore[j]
    requires |deleted| == |deletedBefore|
    requires forall k | 0 <= k < |deleted| :: IsNode(deleted[k], Deleted, -1, deletedBefore[k])
    ensures TrackedList(before, after, slots, deleted + Filled(slots))
    ensures Listed(slots, deleted + Filled(slots))
  {
    forall i | 0 <= i < |slots| && slots[i] != null ensures slots[i].afterIndex == i && slots[i] in Filled(slots) {
      assert SlotFor(before, after, i, slots[i]);
      assert slots[i] in slots;
    }
    FilledDistinct(slots);
    forall n | n in Filled(slots) ensures Tracked(before, after, slots, n) && 0 <= n.afterIndex < |slots| {
      assert n in slots;
      var i :| 0 <= i < |slots| && slots[i] == n;
    }
    forall n | n in deleted ensures Tracked(before, after, slots, n) && n.afterIndex == -1 {
      var k :| 0 <= k < |deleted| && deleted[k] == n;
      assert deletedBefore[k] in deletedBefore;
    }
    var list := deleted + Filled(slots);
    forall i, j | 0 <= i < j < |list| ensures list[i] != list[j] {
      assert list[j] in deleted || list[j] in Filled(slots);
      if i < |deleted| <= j {
        assert list[i] in deleted && list[j] in Filled(slots);
      }
    }
  }

  lemma {:induction false} AbsentDistinct(xs: seq<Key>, ys: seq<Key>, n: nat)
    requires n <= |xs|
    ensures forall i, j | 0 <= i < j < |AbsentUpTo(xs, ys, n)| :: AbsentUpTo(xs, ys, n)[i] != AbsentUpTo(xs, ys, n)[j]
  {
    if n > 0 {
      AbsentDistinct(xs, ys, n - 1);
      var front := AbsentUpTo(xs, ys, n - 1);
      forall k | 0 <= k < |front| ensures front[k] != n - 1 {
        AbsentAt(xs, ys, n - 1, front[k]);
      }
    }
  }

  // ---- From index distances to label distances ----

  ghost function LabelMap(r: Snapshot): map<int, Text> {
    map i | 0 <= i < r.NodeCount() :: r.Label(i)
  }

  /** The rows of `walk` are the rows of `deps`, renamed by `f`. */
  ghost predicate RowRenamed(deps: seq<seq<int>>, walk: map<Text, seq<Text>>, f: map<int, Text>, v: int) {
    && 0 <= v < |deps| && v in f && f[v] in walk && |walk[f[v]]| == |deps[v]|
    && forall k | 0 <= k < |deps[v]| :: deps[v][k] in f && walk[f[v]][k] == f[deps[v][k]]
  }

  lemma RowsRename(deps: seq<seq<int>>, seeds: set<int>, walk: map<Text, seq<Text>>, seeds': set<Text>,
                   f: map<int, Text>)
    requires forall v, w | v in f && w in f && f[v] == f[w] :: v == w
    requires forall v :: v in f <==> 0 <= v < |deps|
    requires forall v | 0 <= v < |deps| :: RowRenamed(deps, walk, f, v)
    requires forall v | v in f :: v in seeds <==> f[v] in seeds'
    ensures Renames(IndexDeps(deps), seeds, walk, seeds', f)
  {
    forall v, u | v in IndexDeps(deps) && u in IndexDeps(deps)[v] ensures u in f {
      assert RowRenamed(deps, walk, f, v);
    }
    assert forall v | v in f :: RowRenamed(deps, walk, f, v);
  }

  lemma LabelsNameDeps(before: Snapshot, after: Snapshot, seedAttrs: Option<set<Text>>, gb: Graph, ga: Graph, i: nat)
    requires Views(before, after, seedAttrs, gb, ga) && i < after.NodeCount()
    ensures RowRenamed(after.deps, WalkDeps(ga.Keys, ga), LabelMap(after), i)
  {
    hide MaterializeTarget, Named, Semantic, after.WellFormed, after.Label, RowRenamed, WalkDeps;
    SemanticAt(after, seedAttrs, i);
    LabelsOfDeps(after, seedAttrs, i);
    WalkRow(ga, after.Label(i));
    RowByNames(after, WalkDeps(ga.Keys, ga), i, MaterializeTarget(after, i, seedAttrs).dependencies);
  }

  lemma WalkRow(g: Graph, n: Text)
    requires n in g && [] !in g[n].dependencies
    ensures n in WalkDeps(g.Keys, g) && WalkDeps(g.Keys, g)[n] == g[n].dependencies
  {
  }

  lemma RowByNames(r: Snapshot, walk: map<Text, seq<Text>>, i: nat, names: seq<Text>)
    requires i < r.NodeCount() && i < |r.deps| && r.Label(i) in walk && walk[r.Label(i)] == names
    requires |names| == |r.deps[i]| && forall k | 0 <= k < |names| ::
        0 <= r.deps[i][k] < r.NodeCount() && names[k] == r.Label(r.deps[i][k])
    ensures RowRenamed(r.deps, walk, LabelMap(r), i)
  {
    hide r.Label;
  }

  /** The dependencies of a node are labels of nodes, none empty. */
  lemma LabelsOfDeps(r: Snapshot, seedAttrs: Option<set<Text>>, i: nat)
    requires r.WellFormed() && i < r.NodeCount()
    ensures i < |r.deps|
    ensures var names := MaterializeTarget(r, i, seedAttrs).dependencies;
      |names| == |r.deps[i]| && forall k | 0 <= k < |names| ::
          0 <= r.deps[i][k] < r.NodeCount() && names[k] == r.Label(r.deps[i][k]) != []
  {
    var names := MaterializeTarget(r, i, seedAttrs).dependencies;
    forall k | 0 <= k < |names|
      ensures 0 <= r.deps[i][k] < r.NodeCount() && names[k] == r.Label(r.deps[i][k]) != []
    {
      assert r.deps[i][k] in r.deps[i];
    }
  }

  lemma LabelsRename(before: Snapshot, after: Snapshot, seedAttrs: Option<set<Text>>, gb: Graph, ga: Graph,
                     seeds: set<int>)
    requires Views(before, after, seedAttrs, gb, ga)
    requires forall i | 0 <= i < after.NodeCount() :: i in seeds <==> IsSeed(gb, ga, after.Label(i))
    ensures Renames(IndexDeps(after.deps), seeds, WalkDeps(ga.Keys, ga), Seeds(gb, ga), LabelMap(after))
  {
    hide IsSeed;
    var f := LabelMap(after);
    forall v, w | v in f && w in f && f[v] == f[w] ensures v == w {
      LabelsAreUnique(after, v, w);
    }
    forall v | 0 <= v < |after.deps| ensures RowRenamed(after.deps, WalkDeps(ga.Keys, ga), f, v) && f[v] in ga {
      LabelsNameDeps(before, after, seedAttrs, gb, ga, v);
    }
    hide Views, WalkDeps, RowRenamed;
    RowsRename(after.deps, seeds, WalkDeps(ga.Keys, ga), Seeds(gb, ga), f);
  }

  lemma ReportedEntryHolds(before: Snapshot, after: Snapshot, seedAttrs: Option<set<Text>>, gb: Graph, ga: Graph,
                           maxDistance: int,
                           slots: seq<ChangedNode?>, list: seq<ChangedNode>, n: ChangedNode, distance: int,
                           seeds: set<int>)
    requires Views(before, after, seedAttrs, gb, ga) && Scanned(before, after, slots)
    requires TrackedList(before, after, slots, list) && n in list
    requires forall i | 0 <= i < after.NodeCount() :: i in seeds <==> IsSeed(gb, ga, after.Label(i))
    requires if n.afterIndex >= 0 then IsDistance(IndexDeps(after.deps), seeds, maxDistance, n.afterIndex, distance)
             else distance == 0
    ensures EntryHolds(gb, ga, maxDistance,
        Entry(NameOf(before, after, n), n.kind, distance, IsSeed(gb, ga, NameOf(before, after, n))))
  {
    assert Tracked(before, after, slots, n);
    TrackedStatus(before, after, seedAttrs, gb, ga, slots, n);
    if n.afterIndex >= 0 {
      LabelsRename(before, after, seedAttrs, gb, ga, seeds);
      RenamingKeepsDistance(IndexDeps(after.deps), seeds, WalkDeps(ga.Keys, ga), Seeds(gb, ga), LabelMap(after),
                            maxDistance, n.afterIndex, distance);
    } else {
      DeletedIsAtZero(gb, ga, maxDistance, NameOf(before, after, n));
    }
  }

  lemma DeletedIsAtZero(gb: Graph, ga: Graph, maxDistance: int, name: Text)
    requires IsDeleted(gb, ga, name)
    ensures IsDistance(WalkDeps(ga.Keys, ga), Seeds(gb, ga), maxDistance, name, 0)
  {
    assert name in Seeds(gb, ga);
  }

  // ---- The report ----

  /** The nodes that must be listed: one slot a dirty label, one node a deleted one. */
  ghost predicate ListComplete(before: Snapshot, after: Snapshot, slots: seq<ChangedNode?>, deletedBefore: seq<int>,
                               list: seq<ChangedNode>) {
    && Listed(slots, list)
    && (forall b | 0 <= b < before.NodeCount() && before.keys[b] !in after.keys ::
          exists k :: 0 <= k < |list| && IsNode(list[k], Deleted, -1, b))
    && (forall k, m | 0 <= k < m < |list| && list[k].kind == Deleted && list[m].kind == Deleted ::
          list[k].beforeIndex != list[m].beforeIndex)
  }

  lemma ListIsComplete(before: Snapshot, after: Snapshot, slots: seq<ChangedNode?>, deletedBefore: seq<int>,
                       deleted: seq<ChangedNode>)
    requires before.WellFormed() && after.WellFormed() && Scanned(before, after, slots)
    requires Listed(slots, deleted + Filled(slots))
    requires forall b :: b in deletedBefore <==> 0 <= b < before.NodeCount() && before.keys[b] !in after.keys
    requires forall i, j | 0 <= i < j < |deletedBefore| :: deletedBefore[i] != deletedBefore[j]
    requires |deleted| == |deletedBefore|
    requires forall k | 0 <= k < |deleted| :: IsNode(deleted[k], Deleted, -1, deletedBefore[k])
    ensures ListComplete(before, after, slots, deletedBefore, deleted + Filled(slots))
  {
    var list := deleted + Filled(slots);
    forall b | 0 <= b < before.NodeCount() && before.keys[b] !in after.keys
      ensures exists k :: 0 <= k < |list| && IsNode(list[k], Deleted, -1, b)
    {
      assert b in deletedBefore;
      var k :| 0 <= k < |deletedBefore| && deletedBefore[k] == b;
      assert IsNode(list[k], Deleted, -1, b);
    }
    forall k | |deleted| <= k < |list| ensures list[k].kind != Deleted {
      assert list[k] == Filled(slots)[k - |deleted|];
      assert list[k] in slots;
      var i :| 0 <= i < |slots| && slots[i] == list[k];
      assert SlotFor(before, after, i, slots[i]);
    }
    forall k, m | 0 <= k < m < |list| && list[k].kind == Deleted && list[m].kind == Deleted
      ensures list[k].beforeIndex != list[m].beforeIndex
    {
      assert k < |deleted| && m < |deleted|;
      assert list[k] == deleted[k] && list[m] == deleted[m];
    }
  }

  /** Different listed nodes have different names. */
  lemma NamesDiffer(before: Snapshot, after: Snapshot, seedAttrs: Option<set<Text>>, gb: Graph, ga: Graph,
                    slots: seq<ChangedNode?>, deletedBefore: seq<int>, list: seq<ChangedNode>, k: int, m: int)
    requires Views(before, after, seedAttrs, gb, ga) && Scanned(before, after, slots)
    requires TrackedList(before, after, slots, list) && ListComplete(before, after, slots, deletedBefore, list)
    requires 0 <= k < m < |list|
    ensures NameOf(before, after, list[k]) != NameOf(before, after, list[m])
  {
    var u, v := list[k], list[m];
    assert Tracked(before, after, slots, u) && Tracked(before, after, slots, v);
    TrackedStatus(before, after, seedAttrs, gb, ga, slots, u);
    TrackedStatus(before, after, seedAttrs, gb, ga, slots, v);
    if NameOf(before, after, u) == NameOf(before, after, v) {
      if u.afterIndex >= 0 && v.afterIndex >= 0 {
        LabelsAreUnique(after, u.afterIndex, v.afterIndex);
      } else {
        assert u.kind == Deleted <==> v.kind == Deleted;
        SlotsAreNotDeleted(before, after, slots, u);
        SlotsAreNotDeleted(before, after, slots, v);
        LabelsAreUnique(before, u.beforeIndex, v.beforeIndex);
      }
    }
  }

  lemma SlotsAreNotDeleted(before: Snapshot, after: Snapshot, slots: seq<ChangedNode?>, n: ChangedNode)
    requires before.WellFormed() && after.WellFormed() && Scanned(before, after, slots)
    requires Tracked(before, after, slots, n)
    ensures n.kind == Deleted <==> n.afterIndex == -1
  {
    if n.afterIndex >= 0 {
      assert SlotFor(before, after, n.afterIndex, slots[n.afterIndex]);
    }
  }

  /** Every dirty or deleted name is listed, and no other. */
  lemma NamesComplete(before: Snapshot, after: Snapshot, seedAttrs: Option<set<Text>>, gb: Graph, ga: Graph,
                      slots: seq<ChangedNode?>, deletedBefore: seq<int>, list: seq<ChangedNode>, name: Text)
    requires Views(before, after, seedAttrs, gb, ga) && Scanned(before, after, slots)
    requires TrackedList(before, after, slots, list) && ListComplete(before, after, slots, deletedBefore, list)
    ensures (exists k :: 0 <= k < |list| && NameOf(before, after, list[k]) == name) <==>
            name in DirtyNames(gb, ga) + (gb.Keys - ga.Keys)
  {
    if k :| 0 <= k < |list| && NameOf(before, after, list[k]) == name {
      assert Tracked(before, after, slots, list[k]);
      TrackedStatus(before, after, seedAttrs, gb, ga, slots, list[k]);
    }
    if name in DirtyNames(gb, ga) {
      var i := NodeOf(after, name);
      SlotStatus(before, after, seedAttrs, gb, ga, slots, i);
      assert slots[i] in list;
      var k :| 0 <= k < |list| && list[k] == slots[i];
      assert NameOf(before, after, list[k]) == name;
    } else if name in gb.Keys - ga.Keys {
      var b := NodeOf(before, name);
      DeletedStatus(before, after, seedAttrs, gb, ga, b);
      var k :| 0 <= k < |list| && IsNode(list[k], Deleted, -1, b);
      assert NameOf(before, after, list[k]) == name;
    }
  }

  predicate ByName(d: Entry, e: Entry) {
    LessEq(d.name, e.name)
  }

  lemma SortedByName(entries: seq<Entry>)
    requires forall i, j | 0 <= i < j < |entries| :: entries[i].name != entries[j].name
    ensures StrictlyAscending(Sort(ByName, entries))
    ensures forall e :: e in Sort(ByName, entries) <==> e in entries
  {
    LessEqIsTotalOrder();
    SortSorted(ByName, entries);
    var sorted := Sort(ByName, entries);
    SameElements(sorted, entries);
    NamesStayDistinct(entries, sorted);
  }

  lemma NamesStayDistinct(entries: seq<Entry>, sorted: seq<Entry>)
    requires multiset(entries) == multiset(sorted)
    requires forall i, j | 0 <= i < j < |entries| :: entries[i].name != entries[j].name
    ensures forall i, j | 0 <= i < j < |sorted| :: sorted[i].name != sorted[j].name
  {
    SameElements(entries, sorted);
    SortingKeepsDistinct(entries, sorted);
    forall i, j | 0 <= i < j < |sorted| ensures sorted[i].name != sorted[j].name {
      assert sorted[i] in entries && sorted[j] in entries;
    }
  }

  method BuildEntries(before: Snapshot, after: Snapshot, changedList: seq<ChangedNode>, ghost slots: seq<ChangedNode?>)
    returns (changed: seq<Entry>)
    requires TrackedList(before, after, slots, changedList)
    ensures |changed| == |changedList|
    ensures forall k | 0 <= k < |changed| ::
        changed[k] == Entry(NameOf(before, after, changedList[k]), changedList[k].kind, changedList[k].distance,
                            changedList[k].seed)
  {
    changed := [];
    for k := 0 to |changedList|
      invariant |changed| == k
      invariant forall j | 0 <= j < k ::
          changed[j] == Entry(NameOf(before, after, changedList[j]), changedList[j].kind, changedList[j].distance,
                              changedList[j].seed)
    {
      var node := changedList[k];
      assert Tracked(before, after, slots, node);
      var name := if node.afterIndex >= 0 then after.Label(node.afterIndex) else before.Label(node.beforeIndex);
      changed := changed + [Entry(name, node.kind, node.distance, node.seed)];
    }
  }

  /** Which after-nodes the search must start from. */
  lemma SeedsAreListed(before: Snapshot, after: Snapshot, seedAttrs: Option<set<Text>>, gb: Graph, ga: Graph,
                       slots: seq<ChangedNode?>, list: seq<ChangedNode>, i: nat)
    requires Views(before, after, seedAttrs, gb, ga) && Scanned(before, after, slots) && Listed(slots, list)
    requires i < after.NodeCount()
    requires forall n | n in list :: n.seed == IsSeed(gb, ga, NameOf(before, after, n))
    ensures i in SeedIndices(list) <==> IsSeed(gb, ga, after.Label(i))
  {
    SlotStatus(before, after, seedAttrs, gb, ga, slots, i);
    NodeStatus(before, after, seedAttrs, gb, ga, i);
    if slots[i] != null {
      assert slots[i] in list && slots[i].afterIndex == i;
      assert NameOf(before, after, slots[i]) == after.Label(i);
    }
  }

  method Report(before: Snapshot, after: Snapshot, seedAttrs: Option<set<Text>>, maxDistance: int,
                changedList: seq<ChangedNode>,
                ghost slots: seq<ChangedNode?>, ghost deletedBefore: seq<int>, ghost gb: Graph, ghost ga: Graph)
    returns (entries: seq<Entry>)
    requires Views(before, after, seedAttrs, gb, ga) && Scanned(before, after, slots)
    requires TrackedList(before, after, slots, changedList)
    requires ListComplete(before, after, slots, deletedBefore, changedList)
    requires forall n | n in changedList :: n.seed == IsSeed(gb, ga, NameOf(before, after, n))
    requires forall n | n in changedList :: if n.afterIndex >= 0
               then IsDistance(IndexDeps(after.deps), SeedIndices(changedList), maxDistance, n.afterIndex, n.distance)
               else n.distance == if n.seed then 0 else -1
    ensures ReportHolds(gb, ga, maxDistance, entries)
  {
    hide Scanned, Views, IsSeed, IsDistance, EntryHolds;
    var changed := BuildEntries(before, after, changedList, slots);
    ghost var seeds := SeedIndices(changedList);
    forall i | 0 <= i < after.NodeCount() ensures i in seeds <==> IsSeed(gb, ga, after.Label(i)) {
      SeedsAreListed(before, after, seedAttrs, gb, ga, slots, changedList, i);
    }
    forall k | 0 <= k < |changed| ensures EntryHolds(gb, ga, maxDistance, changed[k]) {
      var n := changedList[k];
      assert n in changedList && Tracked(before, after, slots, n);
      TrackedStatus(before, after, seedAttrs, gb, ga, slots, n);
      if n.afterIndex < 0 {
        DeletedIsSeed(gb, ga, NameOf(before, after, n));
      }
      ReportedEntryHolds(before, after, seedAttrs, gb, ga, maxDistance, slots, changedList, n, n.distance, seeds);
    }
    forall k, m | 0 <= k < m < |changed| ensures changed[k].name != changed[m].name {
      NamesDiffer(before, after, seedAttrs, gb, ga, slots, deletedBefore, changedList, k, m);
    }
    forall name
      ensures (exists e :: e in changed && e.name == name) <==> name in DirtyNames(gb, ga) + (gb.Keys - ga.Keys)
    {
      NamesComplete(before, after, seedAttrs, gb, ga, slots, deletedBefore, changedList, name);
      if k :| 0 <= k < |changedList| && NameOf(before, after, changedList[k]) == name {
        assert changed[k] in changed && changed[k].name == name;
      }
    }
    SortedByName(changed);
    entries := Sort(ByName, changed);
  }

  lemma DeletedIsSeed(gb: Graph, ga: Graph, name: Text)
    ensures IsDeleted(gb, ga, name) ==> IsSeed(gb, ga, name)
  {
  }

  lemma ScannedLength(before: Snapshot, after: Snapshot, slots: seq<ChangedNode?>)
    requires before.WellFormed() && after.WellFormed() && Scanned(before, after, slots)
    ensures |slots| == after.NodeCount()
  {
  }

  lemma DeletedDistinct(before: Snapshot, after: Snapshot, runs: seq<Run>, deleted: seq<int>, inserted: seq<int>)
    requires IsAlignment(before.keys, after.keys, runs, deleted, inserted)
    ensures forall i, j | 0 <= i < j < |deleted| :: deleted[i] != deleted[j]
  {
    AbsentDistinct(before.keys, after.keys, |before.keys|);
  }

  /** Phases 1 to 3 over an alignment. */
  method CompareAligned(before: Snapshot, after: Snapshot, runs: seq<Run>, deletedBefore: seq<int>,
                        insertedAfter: seq<int>,
                        maxDistance: int, seedAttrs: Option<set<Text>>, ghost gb: Graph, ghost ga: Graph)
    returns (entries: seq<Entry>)
    requires Views(before, after, seedAttrs, gb, ga)
    requires before.WellFormed() && after.WellFormed() && before.stride == after.stride && Ascending(before.keys)
    requires |after.deps| == after.NodeCount()
    requires RunsPair(before, after, runs)
    requires forall i :: i in insertedAfter <==> 0 <= i < after.NodeCount() && BeforeOf(before, after, i) == -1
    requires forall b :: b in deletedBefore <==> 0 <= b < before.NodeCount() && before.keys[b] !in after.keys
    requires forall i, j | 0 <= i < j < |deletedBefore| :: deletedBefore[i] != deletedBefore[j]
    ensures ReportHolds(gb, ga, maxDistance, entries)
  {
    hide *;
    var beforeToAfter := MapRuns(before, after, runs);
    MappedRunsProject(before, after, runs, beforeToAfter[..]);
    var deletedNodes := MakeDeleted(deletedBefore);
    var changedByAfter := ScanHashes(before, after, runs, insertedAfter);
    ghost var slots := changedByAfter[..];
    ScannedLength(before, after, slots);
    var filled := CollectFilled(changedByAfter);
    var changedList := deletedNodes + filled;
    ListIsTracked(before, after, slots, deletedBefore, deletedNodes);
    ListIsComplete(before, after, slots, deletedBefore, deletedNodes);
    FilledAreFresh(slots, deletedNodes);
    SeedScan.ClassifySeeds(before, after, seedAttrs, changedList, changedByAfter, beforeToAfter, gb, ga);
    var fwdOff, fwdTgt := FlattenDeps(after.deps);
    var csrOffsets, csrTargets := BuildReverseCsr(fwdOff, fwdTgt, after.NodeCount(), after.deps);
    Search(after.NodeCount(), csrOffsets, csrTargets, changedByAfter, changedList, maxDistance, after.deps);
    entries := Report(before, after, seedAttrs, maxDistance, changedList, slots, deletedBefore, gb, ga);
  }

  lemma FilledAreFresh(slots: seq<ChangedNode?>, deleted: seq<ChangedNode>)
    ensures forall n | n in deleted + Filled(slots) :: n in deleted || n in slots
  {
  }

  /** The comparison. It fails only on snapshots with different hash strides. */
  method Compare(before: Snapshot, after: Snapshot, maxDistance: int, seedAttrs: Option<set<Text>>)
    returns (result: Result<seq<Entry>>)
    requires before.WellFormed() && after.WellFormed() && DigestsHonest(before, after) && BlocksAgree(before, after)
    ensures result.Err? <==> before.stride != after.stride
    ensures result.Ok? ==>
      ReportHolds(Semantic(before, seedAttrs), Semantic(after, seedAttrs), maxDistance, result.value)
  {
    hide DigestsHonest, BlocksAgree, IsAlignment, RunsPair, ReportHolds, Semantic;
    var runs, deletedBefore, insertedAfter := AlignSnapshots(before, after);
    if after.stride != before.stride {
      return Err;
    }
    AlignedRunsPair(before, after, runs, deletedBefore, insertedAfter);
    DeletedDistinct(before, after, runs, deletedBefore, insertedAfter);
    var entries := CompareAligned(before, after, runs, deletedBefore, insertedAfter, maxDistance, seedAttrs,
                                  Semantic(before, seedAttrs), Semantic(after, seedAttrs));
    return Ok(entries);
  }
}
