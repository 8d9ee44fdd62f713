/** The production cross-check: the fast report, materialised, against the
    reference run over the same two blobs. Under Merkle closure it never finds
    a divergence. */
module Shadow {
  import opened Wrappers
  import opened ByteStrings
  import opened Sorting
  import opened Distance
  import opened TargetDiff
  import opened Snapshot
  import opened DigestAlign
  import opened Refinement
  import TgbDiff

  /** Binary search over the sorted keys. */
  method FindNode(r: Snapshot, key: Key) returns (node: int)
    requires r.WellFormed()
    ensures -1 <= node < r.NodeCount()
    ensures node >= 0 ==> r.keys[node] == key
    ensures node == -1 ==> key !in r.keys
  {
    hide r.WellFormed;
    assert Ascending(r.keys) by {
      KeysAscend(r);
    }
    var lo, hi := 0, r.NodeCount();
    while lo < hi
      invariant 0 <= lo <= hi <= r.NodeCount()
      invariant forall i | 0 <= i < lo :: KeyLess(r.keys[i], key)
      invariant forall i | hi <= i < r.NodeCount() :: !KeyLess(r.keys[i], key)
    {
      var mid := (lo + hi) / 2;
      if KeyLess(r.keys[mid], key) {
        forall i | 0 <= i < mid ensures KeyLess(r.keys[i], key) {
          KeyLessTransitive(r.keys[i], r.keys[mid], key);
        }
        lo := mid + 1;
      } else {
        forall i | mid < i < r.NodeCount() ensures !KeyLess(r.keys[i], key) {
          if KeyLess(r.keys[i], key) {
            KeyLessTransitive(r.keys[mid], r.keys[i], key);
          }
        }
        hi := mid;
      }
    }
    if lo < r.NodeCount() && r.keys[lo] == key {
      return lo;
    }
    forall i | 0 <= i < r.NodeCount() ensures r.keys[i] != key {
      KeyLessIrreflexive(key);
      if i > lo {
        assert KeyLess(r.keys[lo], r.keys[i]);
      }
    }
    return -1;
  }

  lemma KeysAscend(r: Snapshot)
    requires r.WellFormed()
    ensures Ascending(r.keys)
  {
  }

  /** Looking a label up finds exactly the target the label names. */
  lemma FoundTarget(r: Snapshot, seedAttrs: Option<set<Text>>, name: Text, node: int)
    requires r.WellFormed() && -1 <= node < r.NodeCount()
    requires node >= 0 ==> r.keys[node] == SplitLabel(name)
    requires node == -1 ==> SplitLabel(name) !in r.keys
    ensures name in Semantic(r, seedAttrs) ==>
      node >= 0 && Semantic(r, seedAttrs)[name] == MaterializeTarget(r, node, seedAttrs)
  {
    hide r.WellFormed, Semantic, MaterializeTarget, SplitLabel;
    if name in Semantic(r, seedAttrs) {
      var i := OwnNode(r, seedAttrs, name);
      assert r.keys[i] in r.keys;
      if node >= 0 {
        SameKey(r, i, node);
      }
    }
  }

  lemma OwnNode(r: Snapshot, seedAttrs: Option<set<Text>>, name: Text) returns (i: nat)
    requires r.WellFormed() && name in Semantic(r, seedAttrs)
    ensures i < r.NodeCount() && r.keys[i] == SplitLabel(name)
    ensures Semantic(r, seedAttrs)[name] == MaterializeTarget(r, i, seedAttrs)
  {
    hide MaterializeTarget;
    i := NodeOf(r, name);
    SplitJoin(r.keys[i]);
    SemanticAt(r, seedAttrs, i);
  }

  lemma SameKey(r: Snapshot, i: nat, j: nat)
    requires r.WellFormed() && i < r.NodeCount() && j < r.NodeCount() && r.keys[i] == r.keys[j]
    ensures i == j
  {
    hide r.WellFormed;
    KeysAscend(r);
    KeyLessIrreflexive(r.keys[i]);
  }

  /** The reference shape of one fast entry. */
  ghost function Materialized(gb: Graph, ga: Graph, e: TgbDiff.Entry): ChangedTarget {
    ChangedTarget(e.changeType, if e.name in gb then Some(gb[e.name]) else None,
                  if e.name in ga then Some(ga[e.name]) else None, e.distance)
  }

  method MaterializeEntry(before: Snapshot, after: Snapshot, e: TgbDiff.Entry, seedAttrs: Option<set<Text>>,
                          ghost gb: Graph, ghost ga: Graph)
    returns (c: Result<ChangedTarget>)
    requires before.WellFormed() && after.WellFormed() && gb == Semantic(before, seedAttrs)
    requires ga == Semantic(after, seedAttrs)
    requires e.changeType == (if e.name !in gb then New else if e.name !in ga then Deleted else Changed)
    requires e.name in gb || e.name in ga
    ensures c == Ok(Materialized(gb, ga, e))
  {
    var key := SplitLabel(e.name);
    var newTarget, oldTarget := None, None;
    if e.changeType == New || e.changeType == Changed {
      var node := FindNode(after, key);
      FoundTarget(after, seedAttrs, e.name, node);
      if node < 0 {
        return Err;
      }
      newTarget := Some(MaterializeTarget(after, node, seedAttrs));
    }
    if e.changeType == Deleted || e.changeType == Changed {
      var node := FindNode(before, key);
      FoundTarget(before, seedAttrs, e.name, node);
      if node < 0 {
        return Err;
      }
      oldTarget := Some(MaterializeTarget(before, node, seedAttrs));
    }
    return Ok(ChangedTarget(e.changeType, oldTarget, newTarget, e.distance));
  }

  /** The full response for a report; no lookup fails. */
  method Materialize(before: Snapshot, after: Snapshot, entries: seq<TgbDiff.Entry>, seedAttrs: Option<set<Text>>,
                     maxDistance: int, ghost gb: Graph, ghost ga: Graph)
    returns (out: Result<seq<ChangedTarget>>)
    requires before.WellFormed() && after.WellFormed() && gb == Semantic(before, seedAttrs)
    requires ga == Semantic(after, seedAttrs)
    requires TgbDiff.ReportHolds(gb, ga, maxDistance, entries)
    ensures out.Ok? && |out.value| == |entries|
    ensures forall k | 0 <= k < |entries| :: out.value[k] == Materialized(gb, ga, entries[k])
  {
    hide before.WellFormed, after.WellFormed, Semantic;
    var targets := [];
    for k := 0 to |entries|
      invariant |targets| == k && forall j | 0 <= j < k :: targets[j] == Materialized(gb, ga, entries[j])
    {
      assert entries[k] in entries && TgbDiff.EntryHolds(gb, ga, maxDistance, entries[k]);
      assert entries[k].name in DirtyNames(gb, ga) + (gb.Keys - ga.Keys);
      var c := MaterializeEntry(before, after, entries[k], seedAttrs, gb, ga);
      if c.Err? {
        return Err;
      }
      targets := targets + [c.value];
    }
    return Ok(targets);
  }

  // ---- Comparing two results ----

  function SortedTarget(t: Target): Target {
    t.(dependencies := Sort(LessEq, t.dependencies), tags := Sort(LessEq, t.tags))
  }

  function SortedOption(t: Option<Target>): Option<Target> {
    if t.None? then None else Some(SortedTarget(t.value))
  }

  function SortedChange(c: ChangedTarget): ChangedTarget {
    c.(before := SortedOption(c.before), after := SortedOption(c.after))
  }

  /** Two targets are normalised alike exactly when only the order of their
      dependencies and tags may differ. */
  ghost predicate SameTarget(t: Option<Target>, u: Option<Target>) {
    t.Some? == u.Some? && (t.Some? ==>
      && t.value.name == u.value.name && t.value.hash == u.value.hash && t.value.ruleType == u.value.ruleType
      && t.value.attributes == u.value.attributes && t.value.root == u.value.root
      && t.value.external == u.value.external
      && multiset(t.value.dependencies) == multiset(u.value.dependencies)
      && multiset(t.value.tags) == multiset(u.value.tags))
  }

  lemma SortedTextsAgree(xs: seq<Text>, ys: seq<Text>)
    ensures Sort(LessEq, xs) == Sort(LessEq, ys) <==> multiset(xs) == multiset(ys)
  {
    LessEqIsTotalOrder();
    SortSorted(LessEq, xs);
    SortSorted(LessEq, ys);
    if multiset(xs) == multiset(ys) {
      SortedUnique(LessEq, Sort(LessEq, xs), Sort(LessEq, ys));
    }
  }

  lemma NormalisedAlike(c: ChangedTarget, d: ChangedTarget)
    ensures SortedChange(c) == SortedChange(d) <==>
            && c.changeType == d.changeType && c.distance == d.distance
            && SameTarget(c.before, d.before) && SameTarget(c.after, d.after)
  {
    hide Sort;
    if c.before.Some? && d.before.Some? {
      SortedTextsAgree(c.before.value.dependencies, d.before.value.dependencies);
      SortedTextsAgree(c.before.value.tags, d.before.value.tags);
    }
    if c.after.Some? && d.after.Some? {
      SortedTextsAgree(c.after.value.dependencies, d.after.value.dependencies);
      SortedTextsAgree(c.after.value.tags, d.after.value.tags);
    }
  }

  function ChangedLabel(c: ChangedTarget): Text {
    if c.after.Some? then c.after.value.name else if c.before.Some? then c.before.value.name else []
  }

  predicate ByLabel(c: ChangedTarget, d: ChangedTarget) {
    LessEq(ChangedLabel(c), ChangedLabel(d))
  }

  method NormalizeResult(changed: seq<ChangedTarget>) returns (out: seq<ChangedTarget>)
    ensures out == Sort(ByLabel, Sorted1(changed))
  {
    var copies := [];
    for k := 0 to |changed|
      invariant copies == Sorted1(changed[..k])
    {
      assert changed[..k + 1] == changed[..k] + [changed[k]];
      copies := copies + [SortedChange(changed[k])];
    }
    assert changed[..|changed|] == changed;
    out := Sort(ByLabel, copies);
  }

  function Sorted1(changed: seq<ChangedTarget>): (r: seq<ChangedTarget>)
    ensures |r| == |changed|
  {
    seq(|changed|, k requires 0 <= k < |changed| => SortedChange(changed[k]))
  }

  method ResultsEquivalent(a: seq<ChangedTarget>, b: seq<ChangedTarget>) returns (equivalent: bool)
    ensures equivalent <==> Sort(ByLabel, Sorted1(a)) == Sort(ByLabel, Sorted1(b))
  {
    hide Sort, Sorted1;
    var an := NormalizeResult(a);
    var bn := NormalizeResult(b);
    if |an| != |bn| {
      return false;
    }
    for i := 0 to |an|
      invariant an[..i] == bn[..i]
    {
      if an[i] != bn[i] {
        return false;
      }
    }
    assert an[..|an|] == an && bn[..|an|] == bn;
    return true;
  }

  /** The reference's result as the slice it returns, in map order. */
  method ListChanged(changed: map<Text, ChangedTarget>) returns (list: seq<ChangedTarget>, ghost names: seq<Text>)
    ensures |names| == |list| && forall k | 0 <= k < |list| :: names[k] in changed && list[k] == changed[names[k]]
    ensures forall n :: n in names <==> n in changed
    ensures forall i, j | 0 <= i < j < |names| :: names[i] != names[j]
  {
    list, names := [], [];
    var todo := changed.Keys;
    while todo != {}
      invariant todo <= changed.Keys
      invariant |names| == |list| && forall k | 0 <= k < |list| :: names[k] in changed && list[k] == changed[names[k]]
      invariant forall n :: n in names <==> n in changed && n !in todo
      invariant forall i, j | 0 <= i < j < |names| :: names[i] != names[j]
      decreases todo
    {
      var name :| name in todo;
      todo := todo - {name};
      list := list + [changed[name]];
      names := names + [name];
    }
  }

  /** A result that holds one change a name, in any order, normalises to one
      sequence only. */
  lemma OneOrder(xs: seq<ChangedTarget>, ys: seq<ChangedTarget>, names: seq<Text>, names': seq<Text>,
                 m: map<Text, ChangedTarget>)
    requires |names| == |xs| && |names'| == |ys|
    requires forall k | 0 <= k < |xs| :: names[k] in m && xs[k] == m[names[k]]
    requires forall k | 0 <= k < |ys| :: names'[k] in m && ys[k] == m[names'[k]]
    requires forall n :: n in names <==> n in m
    requires forall n :: n in names' <==> n in m
    requires forall i, j | 0 <= i < j < |names| :: names[i] != names[j]
    requires forall i, j | 0 <= i < j < |names'| :: names'[i] != names'[j]
    requires forall n | n in m :: ChangedLabel(m[n]) == n
    ensures Sort(ByLabel, xs) == Sort(ByLabel, ys)
  {
    SameMembers(names, names');
    MappedMultiset(xs, names, m);
    MappedMultiset(ys, names', m);
    MultisetOfNames(names, names', m, xs, ys);
    LabelsDecide(xs, names, m);
    SortsAgree(xs, ys);
  }

  lemma LabelsDecide(xs: seq<ChangedTarget>, names: seq<Text>, m: map<Text, ChangedTarget>)
    requires |names| == |xs| && forall k | 0 <= k < |xs| :: names[k] in m && xs[k] == m[names[k]]
    requires forall n | n in m :: ChangedLabel(m[n]) == n
    ensures forall c, d | c in xs && d in xs && ChangedLabel(c) == ChangedLabel(d) :: c == d
  {
    forall c, d | c in xs && d in xs && ChangedLabel(c) == ChangedLabel(d) ensures c == d {
      var i :| 0 <= i < |xs| && xs[i] == c;
      var j :| 0 <= j < |xs| && xs[j] == d;
      assert names[i] == names[j];
    }
  }

  lemma SortsAgree(xs: seq<ChangedTarget>, ys: seq<ChangedTarget>)
    requires multiset(xs) == multiset(ys)
    requires forall c, d | c in xs && d in xs && ChangedLabel(c) == ChangedLabel(d) :: c == d
    ensures Sort(ByLabel, xs) == Sort(ByLabel, ys)
  {
    hide ChangedLabel, Sort;
    LessEqIsTotalOrder();
    SortSorted(ByLabel, xs);
    SortSorted(ByLabel, ys);
    SameElements(Sort(ByLabel, xs), xs);
    SortedUnique(ByLabel, Sort(ByLabel, xs), Sort(ByLabel, ys));
  }

  /** The multiset of changes is the image of the multiset of names. */
  ghost predicate ImageOf(names: multiset<Text>, m: map<Text, ChangedTarget>, changes: multiset<ChangedTarget>) {
    && (forall n | n in names :: n in m)
    && forall c :: changes[c] == if ChangedLabel(c) in m && m[ChangedLabel(c)] == c then names[ChangedLabel(c)] else 0
  }

  lemma NoImage(m: map<Text, ChangedTarget>)
    ensures ImageOf(multiset([]), m, multiset([]))
  {
  }

  lemma OneMoreImage(names: multiset<Text>, m: map<Text, ChangedTarget>, changes: multiset<ChangedTarget>, name: Text)
    requires ImageOf(names, m, changes) && name in m && forall n | n in m :: ChangedLabel(m[n]) == n
    ensures ImageOf(multiset{name} + names, m, multiset{m[name]} + changes)
  {
    hide ChangedLabel;
  }

  lemma {:induction false} MappedMultiset(xs: seq<ChangedTarget>, names: seq<Text>, m: map<Text, ChangedTarget>)
    requires |names| == |xs| && forall k | 0 <= k < |xs| :: names[k] in m && xs[k] == m[names[k]]
    requires forall n | n in m :: ChangedLabel(m[n]) == n
    ensures ImageOf(multiset(names), m, multiset(xs))
  {
    hide ChangedLabel, ImageOf;
    if xs == [] {
      NoImage(m);
    } else {
      MappedMultiset(xs[1..], names[1..], m);
      OneMoreImage(multiset(names[1..]), m, multiset(xs[1..]), names[0]);
      assert xs == [xs[0]] + xs[1..] && names == [names[0]] + names[1..];
      assert multiset(xs) == multiset{xs[0]} + multiset(xs[1..]);
      assert multiset(names) == multiset{names[0]} + multiset(names[1..]);
    }
  }

  lemma MultisetOfNames(names: seq<Text>, names': seq<Text>, m: map<Text, ChangedTarget>, xs: seq<ChangedTarget>,
                        ys: seq<ChangedTarget>)
    requires multiset(names) == multiset(names')
    requires ImageOf(multiset(names), m, multiset(xs)) && ImageOf(multiset(names'), m, multiset(ys))
    ensures multiset(xs) == multiset(ys)
  {
    forall c ensures multiset(xs)[c] == multiset(ys)[c] {
    }
  }

  ghost function SortedMap(m: map<Text, ChangedTarget>): map<Text, ChangedTarget> {
    map n | n in m :: SortedChange(m[n])
  }

  /** The shadow comparison: it reports equivalence exactly when every new or
      changed target some way off has a seed or a new or changed dependency one
      step nearer, as under Merkle closure. */
  method ShadowCompare(before: Snapshot, after: Snapshot, seedAttrs: Option<set<Text>>)
    returns (equivalent: Result<bool>)
    requires before.WellFormed() && after.WellFormed() && DigestsHonest(before, after) && BlocksAgree(before, after)
    ensures equivalent.Err? <==> before.stride != after.stride
    ensures equivalent.Ok? ==>
      (equivalent.value <==> NearerDirty(Semantic(before, seedAttrs), Semantic(after, seedAttrs), -1))
    ensures equivalent.Ok? && MerkleClosed(Semantic(before, seedAttrs), Semantic(after, seedAttrs)) ==> equivalent.value
  {
    var report := TgbDiff.Compare(before, after, -1, seedAttrs);
    if report.Err? {
      return Err;
    }
    var gb := SemanticGraph(before, seedAttrs);
    var ga := SemanticGraph(after, seedAttrs);
    SemanticIsClosed(before, seedAttrs);
    SemanticIsClosed(after, seedAttrs);
    hide DigestsHonest, BlocksAgree, MerkleClosed, NearerDirty, Semantic, before.WellFormed, after.WellFormed,
        TgbDiff.ReportHolds;
    var got := Materialize(before, after, report.value, seedAttrs, -1, gb, ga);
    var oracle := TargetDiff.Compare(gb, ga, -1);
    var list;
    ghost var names;
    list, names := ListChanged(oracle);
    var same := ResultsEquivalent(got.value, list);
    VerdictIsExact(gb, ga, report.value, oracle, got.value, list, names);
    return Ok(same);
  }

  ghost function EntryNames(entries: seq<TgbDiff.Entry>): (names: seq<Text>)
    ensures |names| == |entries|
  {
    seq(|entries|, k requires 0 <= k < |entries| => entries[k].name)
  }

  lemma EntriesListOracle(gb: Graph, ga: Graph, entries: seq<TgbDiff.Entry>, oracle: map<Text, ChangedTarget>,
                          got: seq<ChangedTarget>)
    requires ReferenceHolds(gb, ga, -1, oracle)
    requires forall e | e in entries ::
        e.name in oracle && Refines(gb, ga, e, oracle[e.name]) && e.distance == oracle[e.name].distance
    requires |got| == |entries| && forall k | 0 <= k < |entries| :: got[k] == Materialized(gb, ga, entries[k])
    ensures forall k | 0 <= k < |got| :: entries[k].name in oracle && got[k] == oracle[entries[k].name]
  {
    forall k | 0 <= k < |got| ensures entries[k].name in oracle && got[k] == oracle[entries[k].name] {
      assert entries[k] in entries;
      assert EntryFor(gb, ga, entries[k].name, oracle[entries[k].name]);
    }
  }

  lemma EquivalentLists(gb: Graph, ga: Graph, entries: seq<TgbDiff.Entry>, oracle: map<Text, ChangedTarget>,
                        got: seq<ChangedTarget>, list: seq<ChangedTarget>, names: seq<Text>)
    requires TgbDiff.ReportHolds(gb, ga, -1, entries) && ReferenceHolds(gb, ga, -1, oracle)
    requires (forall n | n in gb :: gb[n].name == n) && (forall n | n in ga :: ga[n].name == n)
    requires |got| == |entries|
    requires forall k | 0 <= k < |got| :: entries[k].name in oracle && got[k] == oracle[entries[k].name]
    requires |names| == |list| && forall k | 0 <= k < |list| :: names[k] in oracle && list[k] == oracle[names[k]]
    requires forall n :: n in names <==> n in oracle
    requires forall i, j | 0 <= i < j < |names| :: names[i] != names[j]
    ensures Sort(ByLabel, Sorted1(got)) == Sort(ByLabel, Sorted1(list))
  {
    hide TgbDiff.ReportHolds, ReferenceHolds, ChangedLabel, SortedChange, Sort;
    var entryNames, sorted := EntryNames(entries), SortedMap(oracle);
    NamesOfReport(gb, ga, entries, oracle);
    SortedLabels(gb, ga, oracle);
    OneOrder(Sorted1(got), Sorted1(list), entryNames, names, sorted);
  }

  /** The two lists normalise alike exactly when the distances agree. */
  lemma VerdictIsExact(gb: Graph, ga: Graph, entries: seq<TgbDiff.Entry>, oracle: map<Text, ChangedTarget>,
                       got: seq<ChangedTarget>, list: seq<ChangedTarget>, names: seq<Text>)
    requires Closed(ga) && TgbDiff.ReportHolds(gb, ga, -1, entries) && ReferenceHolds(gb, ga, -1, oracle)
    requires (forall n | n in gb :: gb[n].name == n) && (forall n | n in ga :: ga[n].name == n)
    requires |got| == |entries| && forall k | 0 <= k < |entries| :: got[k] == Materialized(gb, ga, entries[k])
    requires |names| == |list| && forall k | 0 <= k < |list| :: names[k] in oracle && list[k] == oracle[names[k]]
    requires forall n :: n in names <==> n in oracle
    requires forall i, j | 0 <= i < j < |names| :: names[i] != names[j]
    ensures Sort(ByLabel, Sorted1(got)) == Sort(ByLabel, Sorted1(list)) <==> NearerDirty(gb, ga, -1)
    ensures MerkleClosed(gb, ga) ==> NearerDirty(gb, ga, -1)
  {
    FastRefinesReference(gb, ga, -1, entries, oracle);
    DistancesAgreeExactly(gb, ga, -1, entries, oracle);
    if forall e | e in entries :: e.distance == oracle[e.name].distance {
      EntriesListOracle(gb, ga, entries, oracle, got);
      EquivalentLists(gb, ga, entries, oracle, got, list, names);
    }
    if Sort(ByLabel, Sorted1(got)) == Sort(ByLabel, Sorted1(list)) {
      forall e | e in entries ensures e.distance == oracle[e.name].distance {
        SameDistance(gb, ga, entries, oracle, got, list, names, e);
      }
    }
  }

  lemma EntryIsReported(gb: Graph, ga: Graph, entries: seq<TgbDiff.Entry>, e: TgbDiff.Entry)
    requires TgbDiff.ReportHolds(gb, ga, -1, entries) && e in entries
    ensures e.name in DirtyNames(gb, ga) + (gb.Keys - ga.Keys)
  {
  }

  /** Lists that normalise alike give each target one distance. */
  lemma SameDistance(gb: Graph, ga: Graph, entries: seq<TgbDiff.Entry>, oracle: map<Text, ChangedTarget>,
                     got: seq<ChangedTarget>, list: seq<ChangedTarget>, names: seq<Text>, e: TgbDiff.Entry)
    requires TgbDiff.ReportHolds(gb, ga, -1, entries) && ReferenceHolds(gb, ga, -1, oracle) && e in entries
    requires (forall n | n in gb :: gb[n].name == n) && (forall n | n in ga :: ga[n].name == n)
    requires |got| == |entries| && forall k | 0 <= k < |entries| :: got[k] == Materialized(gb, ga, entries[k])
    requires |names| == |list| && forall k | 0 <= k < |list| :: names[k] in oracle && list[k] == oracle[names[k]]
    requires Sort(ByLabel, Sorted1(got)) == Sort(ByLabel, Sorted1(list))
    ensures e.name in oracle && e.distance == oracle[e.name].distance
  {
    hide ChangedLabel, SortedChange, Sort, TgbDiff.ReportHolds, ReferenceHolds, Materialized, SortedMap, Sorted1;
    EntryIsReported(gb, ga, entries, e);
    var k :| 0 <= k < |entries| && entries[k] == e;
    var j := Counterpart(got, list, k);
    SortedLabels(gb, ga, oracle);
    SortedAt(oracle, names[j]);
    EntryLabel(gb, ga, e);
    SortingKeepsDistance(got[k]);
    SortingKeepsDistance(list[j]);
    MaterializedDistance(gb, ga, e);
  }

  /** Of lists that normalise alike, each change of one is sorted as one of the
      other is. */
  lemma Counterpart(xs: seq<ChangedTarget>, ys: seq<ChangedTarget>, k: nat) returns (j: nat)
    requires k < |xs| && Sort(ByLabel, Sorted1(xs)) == Sort(ByLabel, Sorted1(ys))
    ensures j < |ys| && SortedChange(ys[j]) == SortedChange(xs[k])
  {
    hide Sort, SortedChange;
    assert Sorted1(xs)[k] in multiset(Sorted1(xs));
    assert multiset(Sort(ByLabel, Sorted1(xs))) == multiset(Sorted1(ys));
    j :| 0 <= j < |Sorted1(ys)| && Sorted1(ys)[j] == Sorted1(xs)[k];
  }

  lemma SortedAt(m: map<Text, ChangedTarget>, n: Text)
    requires n in m
    ensures n in SortedMap(m) && SortedMap(m)[n] == SortedChange(m[n])
  {
  }

  lemma MaterializedDistance(gb: Graph, ga: Graph, e: TgbDiff.Entry)
    ensures Materialized(gb, ga, e).distance == e.distance
  {
  }

  lemma EntryLabel(gb: Graph, ga: Graph, e: TgbDiff.Entry)
    requires (forall n | n in gb :: gb[n].name == n) && (forall n | n in ga :: ga[n].name == n)
    requires e.name in gb || e.name in ga
    ensures ChangedLabel(SortedChange(Materialized(gb, ga, e))) == e.name
  {
  }

  lemma SortingKeepsDistance(c: ChangedTarget)
    ensures SortedChange(c).distance == c.distance
  {
  }

  lemma SortedLabels(gb: Graph, ga: Graph, oracle: map<Text, ChangedTarget>)
    requires ReferenceHolds(gb, ga, -1, oracle)
    requires (forall n | n in gb :: gb[n].name == n) && (forall n | n in ga :: ga[n].name == n)
    ensures forall n | n in SortedMap(oracle) :: ChangedLabel(SortedMap(oracle)[n]) == n
  {
    hide IsDistance;
    forall n | n in oracle ensures ChangedLabel(SortedMap(oracle)[n]) == n {
      assert EntryFor(gb, ga, n, oracle[n]);
    }
  }

  lemma NamesOfReport(gb: Graph, ga: Graph, entries: seq<TgbDiff.Entry>, oracle: map<Text, ChangedTarget>)
    requires TgbDiff.ReportHolds(gb, ga, -1, entries) && ReferenceHolds(gb, ga, -1, oracle)
    ensures forall n :: n in EntryNames(entries) <==> n in oracle
    ensures forall i, j | 0 <= i < j < |entries| :: EntryNames(entries)[i] != EntryNames(entries)[j]
  {
    var entryNames := EntryNames(entries);
    forall i, j | 0 <= i < j < |entryNames| ensures entryNames[i] != entryNames[j] {
      assert Less(entries[i].name, entries[j].name);
      LessIrreflexive(entries[i].name);
    }
    forall n ensures n in entryNames <==> n in oracle {
      if n in oracle {
        var e :| e in entries && e.name == n;
        var k :| 0 <= k < |entries| && entries[k] == e;
        assert entryNames[k] == n;
      }
      if n in entryNames {
        var k :| 0 <= k < |entryNames| && entryNames[k] == n;
        assert entries[k] in entries && entries[k].name == n;
      }
    }
  }
}
