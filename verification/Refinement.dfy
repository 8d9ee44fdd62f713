/** The fast comparison refines the reference: same labels, same change types,
    same seeds, and the same distances whenever hashes are Merkle-closed. */
module Refinement {
  import opened Wrappers
  import opened ByteStrings
  import opened Distance
  import opened TargetDiff
  import opened Snapshot
  import TgbDiff

  /** Every target with a new or changed dependency is itself new or changed. */
  ghost predicate MerkleClosed(gb: Graph, ga: Graph) {
    forall n, d | n in ga && d in ga[n].dependencies && IsDirty(gb, ga, d) :: IsDirty(gb, ga, n)
  }

  /** Every dependency is a target of the graph, and no target is unnamed. */
  ghost predicate Closed(g: Graph) {
    [] !in g && forall n, d | n in g && d in g[n].dependencies :: d in g
  }

  lemma SemanticIsClosed(r: Snapshot, seedAttrs: Option<set<Text>>)
    requires r.WellFormed()
    ensures Closed(Semantic(r, seedAttrs))
    ensures forall n | n in Semantic(r, seedAttrs) :: Semantic(r, seedAttrs)[n].name == n
  {
    var g := Semantic(r, seedAttrs);
    forall n, d | n in g && d in g[n].dependencies ensures d in g {
      var i := NodeOf(r, n);
      SemanticAt(r, seedAttrs, i);
      var j :| 0 <= j < |r.deps[i]| && MaterializeTarget(r, i, seedAttrs).dependencies[j] == d;
      assert r.deps[i][j] in r.deps[i];
      SemanticAt(r, seedAttrs, r.deps[i][j]);
    }
  }

  /** The distances both comparisons give one target: never farther on the fast
      side, and equal under Merkle closure. */
  lemma DistancesRefine(gb: Graph, ga: Graph, maxDistance: int, name: Text, reference: int, fast: int)
    requires Closed(ga)
    requires IsDistance(WalkDeps(DirtyNames(gb, ga), ga), Seeds(gb, ga), maxDistance, name, reference)
    requires IsDistance(WalkDeps(ga.Keys, ga), Seeds(gb, ga), maxDistance, name, fast)
    ensures reference >= 0 ==> 0 <= fast <= reference
    ensures MerkleClosed(gb, ga) ==> fast == reference
    ensures reference == 0 <==> fast == 0
    ensures fast == 0 <==> IsSeed(gb, ga, name) && (name in ga || name in gb)
  {
    var dirty, all, seeds := WalkDeps(DirtyNames(gb, ga), ga), WalkDeps(ga.Keys, ga), Seeds(gb, ga);
    ZeroIsSeed(dirty, seeds, maxDistance, name, reference);
    ZeroIsSeed(all, seeds, maxDistance, name, fast);
    if reference >= 0 {
      FewerNodesAreFarther(dirty, all, seeds, maxDistance, name, reference, fast);
    }
    if MerkleClosed(gb, ga) {
      forall v, u | v in all && u in all[v] && (u in dirty || u in seeds) ensures v in dirty {
        assert u in ga[v].dependencies && u in ga;
        assert IsDirty(gb, ga, u);
      }
      ClosedRestrictionKeepsDistance(dirty, all, seeds, maxDistance, name, reference);
      DistanceUnique(all, seeds, maxDistance, name, fast, reference);
    }
  }

  lemma ZeroIsSeed<V(!new)>(deps: map<V, seq<V>>, seeds: set<V>, max: int, n: V, d: int)
    requires IsDistance(deps, seeds, max, n, d)
    ensures d == 0 <==> n in seeds
  {
    if n in seeds {
      assert IsDistance(deps, seeds, max, n, 0);
      DistanceUnique(deps, seeds, max, n, d, 0);
    }
  }

  /** The reference's report: Compare's contract, as a predicate on its result. */
  ghost predicate ReferenceHolds(gb: Graph, ga: Graph, maxDistance: int, changed: map<Text, ChangedTarget>) {
    && changed.Keys == DirtyNames(gb, ga) + (gb.Keys - ga.Keys)
    && (forall n | n in changed :: EntryFor(gb, ga, n, changed[n]))
    && (forall n | n in changed ::
          IsDistance(WalkDeps(DirtyNames(gb, ga), ga), Seeds(gb, ga), maxDistance, n, changed[n].distance))
  }

  /** Entry `e` of the fast report against the reference's entry of its label. */
  ghost predicate Refines(gb: Graph, ga: Graph, e: TgbDiff.Entry, c: ChangedTarget) {
    && e.changeType == c.changeType
    && (e.seed <==> e.distance == 0) && (e.distance == 0 <==> c.distance == 0)
    && (c.distance >= 0 ==> 0 <= e.distance <= c.distance)
    && (MerkleClosed(gb, ga) ==> e.distance == c.distance)
  }

  /** The refinement theorem. The two reports name the same targets, and every
      pair of entries agrees. */
  lemma FastRefinesReference(gb: Graph, ga: Graph, maxDistance: int, entries: seq<TgbDiff.Entry>,
                             changed: map<Text, ChangedTarget>)
    requires Closed(ga) && TgbDiff.ReportHolds(gb, ga, maxDistance, entries)
    requires ReferenceHolds(gb, ga, maxDistance, changed)
    ensures forall e | e in entries :: e.name in changed && Refines(gb, ga, e, changed[e.name])
    ensures forall n | n in changed :: exists e :: e in entries && e.name == n
  {
    forall e | e in entries ensures e.name in changed && Refines(gb, ga, e, changed[e.name]) {
      assert TgbDiff.EntryHolds(gb, ga, maxDistance, e);
      DistancesRefine(gb, ga, maxDistance, e.name, changed[e.name].distance, e.distance);
    }
  }

  // ---- Exactly when the distances agree ----

  /** Every new or changed target that is some way off has, among its
      dependencies, a seed or a new or changed target one step nearer. Distances
      are those of the whole after-graph. */
  ghost predicate NearerDirty(gb: Graph, ga: Graph, maxDistance: int) {
    forall n, d |
        n in DirtyNames(gb, ga) && d > 0 && IsDistance(WalkDeps(ga.Keys, ga), Seeds(gb, ga), maxDistance, n, d) ::
      exists m ::
        && m in ga[n].dependencies && m in DirtyNames(gb, ga) + Seeds(gb, ga)
        && IsDistance(WalkDeps(ga.Keys, ga), Seeds(gb, ga), maxDistance, m, d - 1)
  }

  function FastDistances(entries: seq<TgbDiff.Entry>): map<Text, int> {
    if entries == [] then map[] else
      var n := |entries| - 1;
      FastDistances(entries[..n])[entries[n].name := entries[n].distance]
  }

  function SlowDistances(changed: map<Text, ChangedTarget>): map<Text, int> {
    map n | n in changed :: changed[n].distance
  }

  lemma {:induction false} FastDistancesHold(entries: seq<TgbDiff.Entry>)
    requires TgbDiff.StrictlyAscending(entries)
    ensures forall n :: n in FastDistances(entries) <==> exists e :: e in entries && e.name == n
    ensures forall e | e in entries :: FastDistances(entries)[e.name] == e.distance
    decreases |entries|
  {
    hide FastDistances;
    FastDistancesStep(entries);
    if entries != [] {
      var k := |entries| - 1;
      FirstEntriesAscend(entries);
      FastDistancesHold(entries[..k]);
      LastNameIsNew(entries);
    }
  }

  lemma FastDistancesStep(entries: seq<TgbDiff.Entry>)
    ensures entries == [] ==> FastDistances(entries) == map[]
    ensures entries != [] ==>
      var k := |entries| - 1;
      FastDistances(entries) == FastDistances(entries[..k])[entries[k].name := entries[k].distance]
  {
  }

  lemma FirstEntriesAscend(entries: seq<TgbDiff.Entry>)
    requires TgbDiff.StrictlyAscending(entries) && entries != []
    ensures TgbDiff.StrictlyAscending(entries[..|entries| - 1])
    ensures forall e :: e in entries <==> e in entries[..|entries| - 1] || e == entries[|entries| - 1]
  {
    assert entries == entries[..|entries| - 1] + [entries[|entries| - 1]];
  }

  lemma LastNameIsNew(entries: seq<TgbDiff.Entry>)
    requires TgbDiff.StrictlyAscending(entries) && entries != []
    ensures forall e | e in entries[..|entries| - 1] :: e.name != entries[|entries| - 1].name
  {
    var k := |entries| - 1;
    forall e | e in entries[..k] ensures e.name != entries[k].name {
      var i :| 0 <= i < k && entries[i] == e;
      assert Less(entries[i].name, entries[k].name);
      LessIrreflexive(e.name);
    }
  }

  lemma NamedDependencies(ga: Graph, n: Text)
    requires Closed(ga) && n in ga
    ensures Named(ga[n].dependencies) == ga[n].dependencies
  {
  }

  lemma ReportedNames(gb: Graph, ga: Graph)
    ensures DirtyNames(gb, ga) + (gb.Keys - ga.Keys) == WalkDeps(DirtyNames(gb, ga), ga).Keys + Seeds(gb, ga)
  {
  }

  lemma NearerIsStepsDown(gb: Graph, ga: Graph, maxDistance: int, fast: map<Text, int>)
    requires Closed(ga) && fast.Keys == WalkDeps(DirtyNames(gb, ga), ga).Keys + Seeds(gb, ga)
    requires AreDistances(WalkDeps(ga.Keys, ga), Seeds(gb, ga), maxDistance, fast)
    ensures NearerDirty(gb, ga, maxDistance) <==> StepsDown(WalkDeps(DirtyNames(gb, ga), ga), fast)
  {
    hide IsDistance, IsSeed, IsDirty, Named;
    var all, deps, seeds := WalkDeps(ga.Keys, ga), WalkDeps(DirtyNames(gb, ga), ga), Seeds(gb, ga);
    assert deps.Keys == DirtyNames(gb, ga);
    forall n | n in deps ensures deps[n] == ga[n].dependencies {
      NamedDependencies(ga, n);
    }
    forall n, d | n in fast && IsDistance(all, seeds, maxDistance, n, d) ensures fast[n] == d {
      DistanceUnique(all, seeds, maxDistance, n, fast[n], d);
    }
    if StepsDown(deps, fast) {
      forall n, d | n in DirtyNames(gb, ga) && d > 0 && IsDistance(all, seeds, maxDistance, n, d)
        ensures exists m ::
            && m in ga[n].dependencies && m in DirtyNames(gb, ga) + seeds
            && IsDistance(all, seeds, maxDistance, m, d - 1)
      {
        var m :| m in deps[n] && m in fast && fast[m] == fast[n] - 1;
      }
    }
    if NearerDirty(gb, ga, maxDistance) {
      forall n | n in deps && n in fast && fast[n] > 0
        ensures exists m :: m in deps[n] && m in fast && fast[m] == fast[n] - 1
      {
        assert IsDistance(all, seeds, maxDistance, n, fast[n]);
        var m :|
          && m in ga[n].dependencies && m in DirtyNames(gb, ga) + seeds
          && IsDistance(all, seeds, maxDistance, m, fast[n] - 1);
      }
    }
  }

  /** The two reports agree on every distance exactly when, in the after-graph,
      every new or changed target some way off has a seed or a new or changed
      dependency one step nearer. */
  lemma DistancesAgreeExactly(gb: Graph, ga: Graph, maxDistance: int, entries: seq<TgbDiff.Entry>,
                              changed: map<Text, ChangedTarget>)
    requires Closed(ga) && TgbDiff.ReportHolds(gb, ga, maxDistance, entries)
    requires ReferenceHolds(gb, ga, maxDistance, changed)
    ensures forall e | e in entries :: e.name in changed
    ensures (forall e | e in entries :: e.distance == changed[e.name].distance) <==> NearerDirty(gb, ga, maxDistance)
  {
    hide IsDistance, Named, IsSeed, IsDirty, FastDistances, NearerDirty, StepsDown;
    var all, deps, seeds := WalkDeps(ga.Keys, ga), WalkDeps(DirtyNames(gb, ga), ga), Seeds(gb, ga);
    var fast, slow := FastDistances(entries), SlowDistances(changed);
    FastDistancesHold(entries);
    ReportedNames(gb, ga);
    forall n | n in fast ensures IsDistance(all, seeds, maxDistance, n, fast[n]) {
      var e :| e in entries && e.name == n;
      assert TgbDiff.EntryHolds(gb, ga, maxDistance, e);
    }
    NearerIsStepsDown(gb, ga, maxDistance, fast);
    RestrictionKeepsDistances(deps, all, seeds, maxDistance, fast, slow);
    SameDistances(entries, changed);
  }

  lemma SameDistances(entries: seq<TgbDiff.Entry>, changed: map<Text, ChangedTarget>)
    requires TgbDiff.StrictlyAscending(entries) && FastDistances(entries).Keys == changed.Keys
    ensures forall e | e in entries :: e.name in changed
    ensures FastDistances(entries) == SlowDistances(changed) <==>
            forall e | e in entries :: e.distance == changed[e.name].distance
  {
    hide FastDistances;
    FastDistancesHold(entries);
    if forall e | e in entries :: e.name in changed && e.distance == changed[e.name].distance {
      forall n | n in changed ensures FastDistances(entries)[n] == changed[n].distance {
        var e :| e in entries && e.name == n;
      }
    }
  }
}
