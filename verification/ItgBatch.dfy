/** One batch of changes to the incremental graph: deletions, upserts in
    dependency order, and recomputing what was invalidated. */
module ItgBatch {
  import opened Wrappers
  import opened ByteStrings
  import FiniteSets
  import opened Merkle
  import opened NameOrder
  import opened ItgState
  import opened ItgUpdate
  import opened ItgContent
  import opened ItgGraph
  import opened ItgHashing
  import Toposort

  datatype Change = Change(deletedSrcFiles: set<Text>, changedPkgs: set<Text>, deletedPkgs: set<Text>,
                           targets: map<Text, NewTarget>)

  /** Where `b` first occurs, or the length. */
  function IndexOf(t: Text, b: byte): (i: nat)
    ensures i <= |t|
  {
    if t == [] || t[0] == b then 0 else 1 + IndexOf(t[1..], b)
  }

  function PackageOf(name: Text): Text {
    var before := name[..IndexOf(name, ':' as int)];
    if Ascii("//") <= before then before[2..] else before
  }

  /** "//" + pkg + ":" + rest. */
  function LabelIn(pkg: Text, rest: Text): Text {
    [47, 47] + pkg + [58] + rest
  }

  lemma {:induction false} FirstOccurrence(front: Text, b: byte, rest: Text)
    requires b !in front
    ensures IndexOf(front + [b] + rest, b) == |front|
  {
    var t := front + [b] + rest;
    if front == [] {
      assert t[0] == b;
    } else {
      assert t[0] == front[0] && front[0] in front;
      assert t[1..] == front[1..] + [b] + rest;
      FirstOccurrence(front[1..], b, rest);
    }
  }

  /** The package of a label is everything between "//" and the first colon,
      however deep it is nested; other names keep what stands before it. */
  lemma PackageOfLabel(pkg: Text, rest: Text)
    requires 58 !in pkg
    ensures PackageOf(LabelIn(pkg, rest)) == pkg
    ensures !([47, 47] <= pkg) ==> PackageOf(pkg + [58] + rest) == pkg
  {
    assert Ascii("//") == [47, 47] && (':' as int) == 58;
    FirstOccurrence([47, 47] + pkg, 58, rest);
    assert LabelIn(pkg, rest)[..|pkg| + 2] == [47, 47] + pkg;
    FirstOccurrence(pkg, 58, rest);
    assert (pkg + [58] + rest)[..|pkg|] == pkg;
  }

  // ---- What a batch does to the content ----

  ghost function WithoutAll(c: Content, names: set<Text>): Content {
    map n | n in c && n !in names :: c[n].(deps := c[n].deps - names)
  }

  /** A target goes when its package was deleted, or changed and no longer
      lists it. */
  predicate Vanished(change: Change, name: Text) {
    PackageOf(name) in change.deletedPkgs || (PackageOf(name) in change.changedPkgs && name !in change.targets)
  }

  ghost function Remaining(c: Content, change: Change): Content {
    var kept := WithoutAll(c, change.deletedSrcFiles);
    WithoutAll(kept, set n | n in kept && Vanished(change, n))
  }

  ghost function Merged(c: Content, targets: map<Text, NewTarget>, names: set<Text>): Content
    requires names <= targets.Keys
  {
    map n | n in c.Keys + names :: if n in names then NewEntry(targets[n]) else c[n]
  }

  function TableOf(targets: map<Text, NewTarget>): Toposort.Table {
    map n | n in targets :: targets[n].deps
  }

  /** The query's targets that the topological order lists. */
  ghost function Listed(targets: map<Text, NewTarget>): set<Text> {
    set n | n in targets && Toposort.BelowARootOf(TableOf(targets), n)
  }

  ghost function Updated(c: Content, change: Change): Content {
    Merged(Remaining(c, change), change.targets, Listed(change.targets))
  }

  lemma WithoutOneMore(c: Content, names: set<Text>, n: Text)
    ensures Without(WithoutAll(c, names), n) == WithoutAll(c, names + {n})
  {
    var here, there := Without(WithoutAll(c, names), n), WithoutAll(c, names + {n});
    forall m | m in here ensures here[m] == there[m] {
      assert c[m].deps - names - {n} == c[m].deps - (names + {n});
    }
  }

  lemma WithoutNothing(c: Content)
    ensures WithoutAll(c, {}) == c
  {
    forall m | m in c ensures c[m].deps - {} == c[m].deps {
    }
  }

  lemma ContentClosed(h: Digest, s: State, pending: set<nat>, m: Text)
    requires Good(h, s, pending) && m in ContentOf(s)
    ensures ContentOf(s)[m].deps <= ContentOf(s).Keys
  {
    hide Right, Typed, RuleTypesConsistent;
    forall d | d in ContentOf(s)[m].deps ensures d in ContentOf(s) {
      var i :| i in s.targets[s.nameToID[m]].deps && s.Name(i) == d;
      assert i in s.targets;
    }
  }

  /** A name that is not stored is not mentioned either. */
  lemma WithoutAbsent(h: Digest, s: State, name: Text, pending: set<nat>)
    requires Good(h, s, pending) && name !in s.nameToID
    ensures Without(ContentOf(s), name) == ContentOf(s)
  {
    hide Good, EntryOf;
    var c := ContentOf(s);
    forall m | m in c ensures c[m].deps - {name} == c[m].deps {
      ContentClosed(h, s, pending, m);
    }
  }

  // ---- Deletions ----

  method RemoveNamed(g: OptimizedGraph, ghost h: Digest, names: set<Text>, invalidated: set<nat>)
    returns (ok: bool, invalidated': set<nat>)
    requires g.Keyed() && Good(h, g.Abs(), invalidated)
    modifies g, g.OptimizedTargets.Values
    ensures ok && g.Keyed() && Good(h, g.Abs(), invalidated')
    ensures g.OptimizedTargets.Values <= old(g.OptimizedTargets.Values)
    ensures ContentOf(g.Abs()) == WithoutAll(old(ContentOf(g.Abs())), names)
  {
    hide Good, ContentOf, WithoutAll, Without, Removed, PendingRemoved;
    ghost var c := ContentOf(g.Abs());
    invalidated' := invalidated;
    var left := names;
    WithoutNothing(c);
    assert names - left == {};
    while left != {}
      invariant left <= names
      invariant g.Keyed() && Good(h, g.Abs(), invalidated')
      invariant g.OptimizedTargets.Values <= old(g.OptimizedTargets.Values)
      invariant ContentOf(g.Abs()) == WithoutAll(c, names - left)
      decreases left
    {
      var name :| name in left;
      if name in g.TargetNameToID {
        RemovingNamed(h, g.Abs(), name, invalidated');
        WithoutOneMore(c, names - left, name);
        ok, invalidated' := g.RemoveTarget(g.TargetNameToID[name], invalidated');
      } else {
        WithoutOneMore(c, names - left, name);
        WithoutAbsent(h, g.Abs(), name, invalidated');
      }
      assert names - left + {name} == names - (left - {name});
      left := left - {name};
    }
    assert names - {} == names;
    ok := true;
  }

  lemma RemovingNamed(h: Digest, s: State, name: Text, pending: set<nat>)
    requires Good(h, s, pending) && name in s.nameToID
    ensures var id := s.nameToID[name];
      && id in s.targets && Enclosed(s.targets, id)
      && Good(h, Removed(s, id), PendingRemoved(s, id, pending))
      && ContentOf(Removed(s, id)) == Without(ContentOf(s), name)
  {
    hide Right, Typed, RuleTypesConsistent, ContentOf, Without, Removed, PendingRemoved, Cleared;
    EdgesInside(s.targets, s.nameToID[name]);
    RemovalKeepsGood(h, s, s.nameToID[name], pending);
    RemovalChangesContent(h, s, s.nameToID[name], pending);
  }

  lemma RemovedNames(s: State, id: nat)
    requires id in s.targets
    ensures Removed(s, id).idToName == s.idToName - {id} && Removed(s, id).targets.Keys == s.targets.Keys - {id}
  {
    hide Cleared, Unlinked;
  }

  /** The names among `ids` that the change makes vanish. */
  ghost function Doomed(s: State, change: Change, ids: set<nat>): set<Text> {
    set i | i in ids && Vanished(change, s.Name(i)) :: s.Name(i)
  }

  lemma DoomedOneMore(s: State, change: Change, ids: set<nat>, i: nat)
    ensures Doomed(s, change, ids + {i}) ==
            Doomed(s, change, ids) + if Vanished(change, s.Name(i)) then {s.Name(i)} else {}
  {
  }

  lemma DoomedAll(h: Digest, s: State, change: Change, pending: set<nat>)
    requires Good(h, s, pending)
    ensures Doomed(s, change, s.targets.Keys) == set n | n in ContentOf(s) && Vanished(change, n)
  {
    hide Right, Typed, RuleTypesConsistent, Transposed, EntryOf, Vanished;
    forall n | n in ContentOf(s) ensures s.nameToID[n] in s.targets && s.Name(s.nameToID[n]) == n {
    }
    forall i | i in s.targets ensures s.Name(i) in ContentOf(s) {
    }
  }

  lemma StoredNames(h: Digest, s: State, pending: set<nat>, id: nat)
    requires Good(h, s, pending) && id in s.targets
    ensures s.Name(id) in s.nameToID && s.nameToID[s.Name(id)] == id && id in s.idToName
  {
    hide Right, Typed, RuleTypesConsistent, Transposed;
  }

  /** The stored IDs of the query's targets. */
  method IDsInQuery(g: OptimizedGraph, targets: map<Text, NewTarget>) returns (ids: set<nat>)
    ensures forall i :: i in ids <==> exists n :: n in targets && n in g.TargetNameToID && g.TargetNameToID[n] == i
  {
    ids := {};
    var left := targets.Keys;
    while left != {}
      invariant left <= targets.Keys
      invariant forall i ::
          i in ids <==> exists n :: n in targets && n !in left && n in g.TargetNameToID && g.TargetNameToID[n] == i
      decreases left
    {
      var n :| n in left;
      if n in g.TargetNameToID {
        ids := ids + {g.TargetNameToID[n]};
      }
      left := left - {n};
    }
  }

  lemma InQuery(h: Digest, s: State, pending: set<nat>, targets: map<Text, NewTarget>, ids: set<nat>, id: nat)
    requires Good(h, s, pending) && id in s.targets
    requires forall i :: i in ids <==> exists n :: n in targets && n in s.nameToID && s.nameToID[n] == i
    ensures id in ids <==> s.Name(id) in targets
  {
    StoredNames(h, s, pending, id);
    hide Right, Typed, RuleTypesConsistent, Transposed;
  }

  method CheckTarget(g: OptimizedGraph, ghost h: Digest, change: Change, targetIDsInQuery: set<nat>, id: nat,
                     invalidated: set<nat>)
    returns (ok: bool, invalidated': set<nat>)
    requires g.Keyed() && Good(h, g.Abs(), invalidated) && id in g.OptimizedTargets
    requires id in targetIDsInQuery <==> g.Abs().Name(id) in change.targets
    modifies g, g.OptimizedTargets.Values
    ensures ok && g.Keyed() && Good(h, g.Abs(), invalidated')
    ensures g.OptimizedTargets.Values <= old(g.OptimizedTargets.Values)
    ensures old(g.OptimizedTargets.Keys) - {id} <= g.OptimizedTargets.Keys
    ensures forall i | i in old(g.OptimizedTargets) && i != id :: g.Abs().Name(i) == old(g.Abs().Name(i))
    ensures var c, name := old(ContentOf(g.Abs())), old(g.Abs().Name(id));
      ContentOf(g.Abs()) == if Vanished(change, name) then Without(c, name) else c
  {
    hide Good, ContentOf, Without, Removed, PendingRemoved;
    ghost var s := g.Abs();
    invalidated' := invalidated;
    ok := true;
    var pkgName := PackageOf(if id in g.TargetIDToString then g.TargetIDToString[id] else []);
    if pkgName in change.deletedPkgs || (pkgName in change.changedPkgs && id !in targetIDsInQuery) {
      StoredNames(h, s, invalidated, id);
      RemovingNamed(h, s, s.Name(id), invalidated);
      RemovedNames(s, id);
      ok, invalidated' := g.RemoveTarget(id, invalidated);
      assert g.Abs().targets.Keys == g.OptimizedTargets.Keys;
    }
  }

  /** One target more is checked: the content without it, if it is doomed. */
  lemma CheckedOneMore(s: State, change: Change, c: Content, done: set<nat>, id: nat)
    ensures var checked := WithoutAll(c, Doomed(s, change, done));
      WithoutAll(c, Doomed(s, change, done + {id})) == if Vanished(change, s.Name(id)) then Without(checked, s.Name(id))
                                                       else checked
  {
    hide Vanished, Doomed, Without, WithoutAll;
    DoomedOneMore(s, change, done, id);
    WithoutOneMore(c, Doomed(s, change, done), s.Name(id));
    assert Doomed(s, change, done) + {} == Doomed(s, change, done);
  }

  method CheckDeletedTargets(g: OptimizedGraph, ghost h: Digest, change: Change, invalidated: set<nat>)
    returns (ok: bool, invalidated': set<nat>)
    requires g.Keyed() && Good(h, g.Abs(), invalidated)
    modifies g, g.OptimizedTargets.Values
    ensures ok && g.Keyed() && Good(h, g.Abs(), invalidated')
    ensures g.OptimizedTargets.Values <= old(g.OptimizedTargets.Values)
    ensures var c := old(ContentOf(g.Abs())); ContentOf(g.Abs()) == WithoutAll(c, set n | n in c && Vanished(change, n))
  {
    hide Good, ContentOf, WithoutAll, Without, Doomed, Vanished;
    ghost var s0 := g.Abs();
    ghost var c := ContentOf(s0);
    invalidated' := invalidated;
    var targetIDsInQuery := IDsInQuery(g, change.targets);
    forall id | id in s0.targets ensures id in targetIDsInQuery <==> s0.Name(id) in change.targets {
      InQuery(h, s0, invalidated, change.targets, targetIDsInQuery, id);
    }
    var left := g.OptimizedTargets.Keys;
    ghost var done: set<nat> := {};
    NobodyDoomed(s0, change);
    WithoutNothing(c);
    while left != {}
      invariant left <= g.OptimizedTargets.Keys && left <= s0.targets.Keys && done == s0.targets.Keys - left
      invariant g.Keyed() && Good(h, g.Abs(), invalidated')
      invariant g.OptimizedTargets.Values <= old(g.OptimizedTargets.Values)
      invariant forall i | i in left :: g.Abs().Name(i) == s0.Name(i)
      invariant ContentOf(g.Abs()) == WithoutAll(c, Doomed(s0, change, done))
      decreases left
    {
      var id :| id in left;
      CheckedOneMore(s0, change, c, done, id);
      ok, invalidated' := CheckTarget(g, h, change, targetIDsInQuery, id, invalidated');
      left := left - {id};
      done := done + {id};
    }
    assert done == s0.targets.Keys;
    DoomedAll(h, s0, change, invalidated);
    ok := true;
  }

  lemma NobodyDoomed(s: State, change: Change)
    ensures Doomed(s, change, {}) == {}
  {
  }

  // ---- Upserts ----

  ghost predicate Queried(targets: map<Text, NewTarget>) {
    forall n | n in targets :: targets[n].name == n && FromQuery(targets[n])
  }

  /** Every dependency is stored by the time its dependent is upserted. */
  ghost predicate InTime(c: Content, targets: map<Text, NewTarget>, order: seq<Text>)
    requires forall n | n in order :: n in targets
  {
    forall i, d | 0 <= i < |order| && d in targets[order[i]].deps :: d in c || d in order[..i]
  }

  ghost function Names(order: seq<Text>): set<Text> {
    set n | n in order
  }

  lemma KnownByContent(s: State, deps: seq<Text>)
    requires NamesConsistent(s)
    ensures Known(s, deps) <==> forall d | d in deps :: d in ContentOf(s)
  {
    hide EntryOf;
  }

  lemma MergedOneMore(c: Content, targets: map<Text, NewTarget>, names: set<Text>, n: Text)
    requires names <= targets.Keys && n in targets
    ensures Merged(c, targets, names)[n := NewEntry(targets[n])] == Merged(c, targets, names + {n})
  {
  }

  lemma UpsertingNext(h: Digest, s: State, t: NewTarget, pending: set<nat>)
    requires Good(h, s, pending) && FromQuery(t)
    ensures Known(s, t.deps) <==> forall d | d in t.deps :: d in ContentOf(s)
    ensures Known(s, t.deps) ==>
      Good(h, Upserted(s, t), PendingUpserted(s, t, pending)) &&
          ContentOf(Upserted(s, t)) == ContentOf(s)[t.name := NewEntry(t)]
  {
    hide Right, Typed, RuleTypesConsistent, Transposed, FromQuery, Known, ContentOf, Upserted, PendingUpserted;
    KnownByContent(s, t.deps);
    if Known(s, t.deps) {
      UpsertKeepsGood(h, s, t, pending);
      UpsertChangesContent(h, s, t, pending);
    }
  }

  lemma GoodIsValid(h: Digest, s: State, pending: set<nat>)
    requires Good(h, s, pending)
    ensures NamesConsistent(s) && RuleTypesConsistent(s) && Transposed(s.targets)
  {
    hide Right, Typed;
  }

  lemma InTimeAt(c: Content, targets: map<Text, NewTarget>, order: seq<Text>, i: nat)
    requires (forall n | n in order :: n in targets) && i < |order|
    requires Names(order[..i]) <= targets.Keys
    requires InTime(c, targets, order[..i])
    ensures InTime(c, targets, order[..i + 1]) <==>
            forall d | d in targets[order[i]].deps :: d in Merged(c, targets, Names(order[..i]))
    ensures InTime(c, targets, order) ==> InTime(c, targets, order[..i + 1])
    ensures Names(order[..i + 1]) == Names(order[..i]) + {order[i]}
  {
    hide NewEntry, InTime;
    assert order[..i + 1] == order[..i] + [order[i]];
    InTimeOneMore(c, targets, order, i);
    assert forall d :: d in order[..i] <==> d in Names(order[..i]);
  }

  lemma InTimeOneMore(c: Content, targets: map<Text, NewTarget>, order: seq<Text>, i: nat)
    requires (forall n | n in order :: n in targets) && i < |order|
    requires InTime(c, targets, order[..i])
    ensures InTime(c, targets, order[..i + 1]) <==> forall d | d in targets[order[i]].deps :: d in c || d in order[..i]
    ensures InTime(c, targets, order) ==> InTime(c, targets, order[..i + 1])
  {
    var some, more := order[..i], order[..i + 1];
    assert forall k | 0 <= k <= i :: more[..k] == order[..k] && more[k] == order[k];
    assert forall k | 0 <= k < i :: some[..k] == order[..k] && some[k] == order[k];
  }

  method UpsertAll(g: OptimizedGraph, ghost h: Digest, targets: map<Text, NewTarget>, order: seq<Text>,
                   invalidated: set<nat>)
    returns (ok: bool, invalidated': set<nat>)
    requires g.Keyed() && Good(h, g.Abs(), invalidated)
    requires Queried(targets) && forall n | n in order :: n in targets
    modifies g, g.OptimizedTargets.Values
    ensures fresh(g.OptimizedTargets.Values - old(g.OptimizedTargets.Values))
    ensures ok <==> InTime(old(ContentOf(g.Abs())), targets, order)
    ensures ok ==> g.Keyed() && Good(h, g.Abs(), invalidated')
    ensures ok ==>
      Names(order) <= targets.Keys && ContentOf(g.Abs()) == Merged(old(ContentOf(g.Abs())), targets, Names(order))
  {
    hide Good, ContentOf, InTime, Merged, Known, FromQuery, Upserted, PendingUpserted, NamesConsistent,
      RuleTypesConsistent, Transposed, NewEntry;
    ghost var c := ContentOf(g.Abs());
    invalidated' := invalidated;
    NothingMerged(c, targets);
    var i := 0;
    assert order[..0] == [];
    while i < |order|
      invariant 0 <= i <= |order|
      invariant fresh(g.OptimizedTargets.Values - old(g.OptimizedTargets.Values))
      invariant g.Keyed() && Good(h, g.Abs(), invalidated')
      invariant InTime(c, targets, order[..i]) && Names(order[..i]) <= targets.Keys
      invariant ContentOf(g.Abs()) == Merged(c, targets, Names(order[..i]))
    {
      var t := targets[order[i]];
      assert order[i] in order;
      UpsertingNext(h, g.Abs(), t, invalidated');
      GoodIsValid(h, g.Abs(), invalidated');
      InTimeAt(c, targets, order, i);
      MergedOneMore(c, targets, Names(order[..i]), order[i]);
      ok, invalidated' := g.UpsertTarget(t, invalidated');
      if !ok {
        return;
      }
      i := i + 1;
    }
    assert order[..i] == order;
    ok := true;
  }

  lemma NothingMerged(c: Content, targets: map<Text, NewTarget>)
    ensures InTime(c, targets, []) && Names([]) == {} && Merged(c, targets, {}) == c
  {
    hide NewEntry;
  }

  // ---- The whole batch ----

  lemma TopoIsInTime(c: Content, targets: map<Text, NewTarget>, order: seq<Text>)
    requires Toposort.DepsFirst(TableOf(targets), order) && forall n :: n in order <==> n in targets
    ensures InTime(c, targets, order) <==> Fits(c, targets)
  {
    if Fits(c, targets) {
      forall i, d | 0 <= i < |order| && d in targets[order[i]].deps ensures d in c || d in order[..i] {
        assert Toposort.DepsFirstAt(TableOf(targets), order, i);
        assert order[i] in order;
        assert Toposort.DependsOn(TableOf(targets), order[i], d);
      }
    }
    if InTime(c, targets, order) {
      forall n, d | n in targets && d in targets[n].deps ensures d in c || d in targets {
        assert n in order;
        var i :| 0 <= i < |order| && order[i] == n;
        assert d in c || d in order[..i];
        assert d in order[..i] ==> d in order;
      }
    }
  }

  /** Every dependency of the query is in the query or stays in the graph. */
  ghost predicate Fits(c: Content, targets: map<Text, NewTarget>) {
    forall n, d | n in targets && d in targets[n].deps :: d in c || d in targets
  }

  method UpdateInvalidateTargets(g: OptimizedGraph, ghost h: Digest, change: Change, ghost rank: map<Text, nat>)
    returns (ok: bool, invalidated: set<nat>)
    requires g.Keyed() && Good(h, g.Abs(), {}) && Queried(change.targets)
    modifies g, g.OptimizedTargets.Values
    ensures fresh(g.OptimizedTargets.Values - old(g.OptimizedTargets.Values))
    ensures ok ==> g.Keyed() && Good(h, g.Abs(), invalidated)
    ensures ok ==> ContentOf(g.Abs()) == Updated(old(ContentOf(g.Abs())), change)
    ensures Toposort.Descending(TableOf(change.targets), rank) ==>
      (ok <==> Fits(Remaining(old(ContentOf(g.Abs())), change), change.targets))
  {
    hide Good, ContentOf, WithoutAll, Vanished, Fits, InTime, Merged, Toposort.Descending, Toposort.DepsFirst,
      Toposort.BelowARootOf, Queried;
    ok, invalidated := RemoveNamed(g, h, change.deletedSrcFiles, {});
    ok, invalidated := CheckDeletedTargets(g, h, change, invalidated);
    ghost var c := ContentOf(g.Abs());
    var order := Toposort.TopologicalOrder(TableOf(change.targets), rank);
    ok, invalidated := UpsertAll(g, h, change.targets, order, invalidated);
    assert Names(order) == Listed(change.targets);
    if Toposort.Descending(TableOf(change.targets), rank) {
      TopoIsInTime(c, change.targets, order);
    }
  }

  /** Every generated file still has its generating rule. */
  ghost predicate Whole(c: Content) {
    forall n | n in c && c[n].ruleType == GENERATED_FILE :: c[n].deps != {}
  }

  lemma WholeIsComplete(h: Digest, s: State, pending: set<nat>)
    requires Good(h, s, pending) && Whole(ContentOf(s))
    ensures NoOrphans(s)
  {
    hide Right, RuleTypesConsistent, Transposed;
    forall x | x in s.targets ensures Complete(s, x) {
      assert Typed(s, x);
      NameInContent(s, x);
      assert s.targets[x].deps == {} ==> DepNames(s, s.targets[x].deps) == {};
    }
  }

  /** A graph with nothing left to recompute has no orphaned generated file. */
  lemma GoodIsWhole(h: Digest, s: State)
    requires Good(h, s, {})
    ensures Whole(ContentOf(s))
  {
    hide HashedAt, RuleTypesConsistent, Transposed, IsLeafType;
    forall n | n in ContentOf(s) && ContentOf(s)[n].ruleType == GENERATED_FILE ensures ContentOf(s)[n].deps != {} {
      var id := s.nameToID[n];
      assert Right(h, s, id);
      var d :| d in s.targets[id].deps;
      assert s.Name(d) in DepNames(s, s.targets[id].deps);
    }
  }

  /** `rank` has every dependency before its dependents. */
  ghost predicate RanksContent(c: Content, rank: map<Text, nat>) {
    c.Keys <= rank.Keys && forall n, d | n in c && d in c[n].deps :: d in c && rank[d] < rank[n]
  }

  ghost predicate NoCycles(c: Content) {
    exists rank: map<Text, nat> :: RanksContent(c, rank)
  }

  lemma NodeDepsAreDeps(e: Entry)
    requires e.ruleType == GENERATED_FILE ==> e.deps != {}
    ensures forall d | d in DepsOf(NamedNode(e)) :: d in e.deps
  {
    if !IsLeafType(e.ruleType) && e.ruleType != GENERATED_FILE {
      OrderExists(NameItself, e.deps);
    }
  }

  /** Without cycles and orphans the Merkle graph is acyclic. */
  lemma NoCyclesIsSettled(c: Content)
    requires Whole(c) && NoCycles(c)
    ensures Settled(c)
  {
    hide NamedNode, IsLeafType;
    var rank: map<Text, nat> :| RanksContent(c, rank);
    forall n, d | n in c && d in DepsOf(NamedNode(c[n])) ensures d in c && rank[d] < rank[n] {
      NodeDepsAreDeps(c[n]);
    }
    assert Ranked(NamedNodes(c), rank);
  }

  /** The content if every target of the query is upserted. */
  ghost function AllUpdated(c: Content, change: Change): Content {
    Merged(Remaining(c, change), change.targets, change.targets.Keys)
  }

  lemma NamedDeps(e: Entry)
    requires IsLeafType(e.ruleType) ==> e.deps == {}
    requires e.ruleType == GENERATED_FILE ==> |e.deps| <= 1
    ensures forall d | d in e.deps :: d in DepsOf(NamedNode(e))
  {
    if e.ruleType == GENERATED_FILE {
      forall d | d in e.deps ensures d == SingleName(e.deps) {
        if d != SingleName(e.deps) {
          FiniteSets.SubsetSize({d, SingleName(e.deps)}, e.deps);
        }
      }
    } else if !IsLeafType(e.ruleType) {
      OrderExists(NameItself, e.deps);
    }
  }

  /** An acyclic outcome comes from an acyclic query. */
  lemma AcyclicQuery(c: Content, targets: map<Text, NewTarget>, rank: map<Text, nat>)
    requires Queried(targets) && Ranked(NamedNodes(Merged(c, targets, targets.Keys)), rank)
    ensures Toposort.Descending(TableOf(targets), rank)
  {
    var all := Merged(c, targets, targets.Keys);
    forall n, d | Toposort.DependsOn(TableOf(targets), n, d) && d in targets ensures rank[d] < rank[n] {
      var t := targets[n];
      assert all[n] == NewEntry(t);
      if t.ruleType == GENERATED_FILE {
        assert NewEntry(t).deps == {t.deps[0]};
      }
      NamedDeps(all[n]);
      assert d in DepsOf(NamedNodes(all)[n]);
    }
    forall n | n in targets ensures n in rank {
      assert n in NamedNodes(all);
    }
  }

  lemma AllListed(targets: map<Text, NewTarget>, rank: map<Text, nat>)
    requires Toposort.Descending(TableOf(targets), rank)
    ensures Listed(targets) == targets.Keys
  {
    hide Toposort.Descending, Toposort.Below, Toposort.IsRoot;
    var table := TableOf(targets);
    RankCovers(table, rank);
    var bound := Toposort.RankBound(table.Keys, rank);
    forall n | n in targets ensures n in Listed(targets) {
      Toposort.BelowARoot(table, rank, bound, n);
    }
  }

  lemma RankCovers(table: Toposort.Table, rank: map<Text, nat>)
    requires Toposort.Descending(table, rank)
    ensures table.Keys <= rank.Keys
  {
  }

  lemma AcyclicIsListed(c: Content, change: Change)
    requires Queried(change.targets) && Acyclic(NamedNodes(AllUpdated(c, change)))
    ensures Listed(change.targets) == change.targets.Keys && Updated(c, change) == AllUpdated(c, change)
  {
    hide Remaining, Merged, NamedNodes, Acyclic, Ranked, Queried, Listed, Toposort.Descending;
    var rank := RankOf(NamedNodes(AllUpdated(c, change)));
    AcyclicQuery(Remaining(c, change), change.targets, rank);
    AllListed(change.targets, rank);
  }

  ghost predicate Settled(c: Content) {
    Whole(c) && Acyclic(NamedNodes(c))
  }

  /** Some order that proves a settled graph acyclic, by ID. */
  ghost function RankFor(h: Digest, s: State, pending: set<nat>): (rank: map<nat, nat>)
    requires Good(h, s, pending)
    ensures Settled(ContentOf(s)) ==> NoOrphans(s) && Ranked(Nodes(s), rank)
  {
    if Settled(ContentOf(s)) then
      WholeIsComplete(h, s, pending);
      RanksByID(s, RankOf(NamedNodes(ContentOf(s))));
      RankByID(s, RankOf(NamedNodes(ContentOf(s))))
    else map[]
  }

  lemma ComputedIsGood(h: Digest, s: State, s': State, pending: set<nat>, rank: map<nat, nat>)
    requires Good(h, s, pending) && NoOrphans(s) && Ranked(Nodes(s), rank) && Underway(h, s, s', rank)
    requires forall i | i in pending :: i in s'.targets && s'.targets[i].hash.Some?
    ensures Good(h, s', {})
  {
    hide Good, Perfect, Filled;
    GoodIsPerfect(h, s, pending, rank);
    PerfectIsGood(h, s, s', pending, rank);
  }

  lemma FilledEntry(s: State, s': State, x: nat)
    requires Filled(s, s') && x in s.targets && Typed(s, x)
    ensures x in s'.targets && EntryOf(s', x) == EntryOf(s, x)
  {
    assert DepNames(s', s.targets[x].deps) == DepNames(s, s.targets[x].deps);
  }

  lemma FillingKeepsContent(h: Digest, s: State, s': State, pending: set<nat>)
    requires Good(h, s, pending) && Filled(s, s')
    ensures ContentOf(s') == ContentOf(s)
  {
    hide Right, RuleTypesConsistent, NamesConsistent, Transposed, EntryOf, Typed;
    forall x | x in s.targets ensures EntryOf(s', x) == EntryOf(s, x) {
      FilledEntry(s, s', x);
    }
  }

  lemma Finished(h: Digest, s: State, s': State, pending: set<nat>, rank: map<nat, nat>)
    requires Good(h, s, pending) && Underway(h, s, s', rank)
    requires Settled(ContentOf(s)) ==> NoOrphans(s) && Ranked(Nodes(s), rank)
    requires forall i | i in pending :: i in s'.targets && s'.targets[i].hash.Some?
    ensures ContentOf(s') == ContentOf(s) && forall x | x in s'.targets :: s'.targets[x].hash.Some?
    ensures Settled(ContentOf(s')) ==> Good(h, s', {})
  {
    hide Good, Settled, NoOrphans, Ranked, Nodes, ContentOf, Perfect;
    FillingKeepsContent(h, s, s', pending);
    PendingIsStored(h, s, pending);
    if Settled(ContentOf(s)) {
      ComputedIsGood(h, s, s', pending, rank);
    }
  }

  lemma PendingIsStored(h: Digest, s: State, pending: set<nat>)
    requires Good(h, s, pending)
    ensures pending <= s.targets.Keys && forall x | x in s.targets && s.targets[x].hash.None? :: x in pending
  {
  }

  /** An order that proves the query acyclic, when the outcome is. */
  ghost function TopoRank(c: Content, change: Change): (rank: map<Text, nat>)
    requires Queried(change.targets)
    ensures Settled(AllUpdated(c, change)) ==>
      Toposort.Descending(TableOf(change.targets), rank) && Updated(c, change) == AllUpdated(c, change)
  {
    if Settled(AllUpdated(c, change)) then
      AcyclicQuery(Remaining(c, change), change.targets, RankOf(NamedNodes(AllUpdated(c, change))));
      AcyclicIsListed(c, change);
      RankOf(NamedNodes(AllUpdated(c, change)))
    else map[]
  }

  /** A stored label that is neither a deleted file nor in the query goes exactly
      with its package. */
  lemma GoesWithPackage(c: Content, change: Change, pkg: Text, rest: Text)
    requires 58 !in pkg && LabelIn(pkg, rest) in c
    requires LabelIn(pkg, rest) !in change.deletedSrcFiles && LabelIn(pkg, rest) !in change.targets
    ensures LabelIn(pkg, rest) in Updated(c, change) <==> pkg !in change.changedPkgs && pkg !in change.deletedPkgs
  {
    hide PackageOf, LabelIn, Toposort.BelowARootOf, NewEntry;
    PackageOfLabel(pkg, rest);
  }

  lemma DeletedGoes(c: Content, change: Change, n: Text)
    requires n in change.deletedSrcFiles && n !in change.targets
    ensures n !in Updated(c, change)
  {
    hide Vanished, Toposort.BelowARootOf, NewEntry;
  }

  /** Applies a batch of changes and recomputes what it invalidated. */
  method UpdateGraph(g: OptimizedGraph, h: Digest, change: Change) returns (ok: bool)
    requires g.Keyed() && Good(h, g.Abs(), {}) && Queried(change.targets)
    modifies g, g.OptimizedTargets.Values
    ensures fresh(g.OptimizedTargets.Values - old(g.OptimizedTargets.Values))
    ensures ok ==> g.Keyed() && ContentOf(g.Abs()) == Updated(old(ContentOf(g.Abs())), change)
    ensures ok ==> forall n | n in change.deletedSrcFiles && n !in change.targets :: n !in ContentOf(g.Abs())
    ensures ok ==> forall pkg: Text, rest: Text | 58 !in pkg && LabelIn(pkg, rest) in old(ContentOf(g.Abs())) ::
        LabelIn(pkg, rest) in change.deletedSrcFiles || LabelIn(pkg, rest) in change.targets ||
        (LabelIn(pkg, rest) in ContentOf(g.Abs()) <==> pkg !in change.changedPkgs && pkg !in change.deletedPkgs)
    ensures ok ==> forall id | id in g.OptimizedTargets :: g.OptimizedTargets[id].Hash.Some?
    ensures ok && NoCycles(ContentOf(g.Abs())) ==> (Good(h, g.Abs(), {}) <==> Whole(ContentOf(g.Abs())))
    ensures ok && Settled(ContentOf(g.Abs())) ==> Good(h, g.Abs(), {})
    ensures var c := old(ContentOf(g.Abs()));
      Fits(Remaining(c, change), change.targets) && Settled(AllUpdated(c, change)) ==>
        ok && ContentOf(g.Abs()) == AllUpdated(c, change)
  {
    hide Good, ContentOf, Queried, Updated, AllUpdated, Remaining, Fits, Settled, Whole, NoCycles, Underway, Filled,
      Ready, NoOrphans, Nodes, Ranked, LabelIn, Toposort.Descending;
    ghost var c := ContentOf(g.Abs());
    var invalidated;
    ok, invalidated := UpdateInvalidateTargets(g, h, change, TopoRank(c, change));
    if !ok {
      return;
    }
    ghost var s := g.Abs();
    ghost var rank := RankFor(h, s, invalidated);
    BatchIsReady(h, s, invalidated);
    ok := ComputeInvalidatedHashes(g, h, invalidated, rank);
    if ok {
      assert forall i | i in g.OptimizedTargets :: g.Abs().targets[i] == g.OptimizedTargets[i].Value();
      Finished(h, s, g.Abs(), invalidated, rank);
      forall n | n in change.deletedSrcFiles && n !in change.targets ensures n !in Updated(c, change) {
        DeletedGoes(c, change, n);
      }
      forall pkg: Text, rest: Text | 58 !in pkg && LabelIn(pkg, rest) in c && LabelIn(pkg, rest) !in change.targets &&
          LabelIn(pkg, rest) !in change.deletedSrcFiles
        ensures LabelIn(pkg, rest) in Updated(c, change) <==> pkg !in change.changedPkgs && pkg !in change.deletedPkgs
      {
        GoesWithPackage(c, change, pkg, rest);
      }
      GoodExactlyWhole(h, g.Abs());
    }
  }

  lemma GoodExactlyWhole(h: Digest, s: State)
    requires Settled(ContentOf(s)) ==> Good(h, s, {})
    ensures NoCycles(ContentOf(s)) ==> (Good(h, s, {}) <==> Whole(ContentOf(s)))
  {
    hide Good, Settled, Whole, NoCycles, ContentOf;
    if Good(h, s, {}) {
      GoodIsWhole(h, s);
    } else if NoCycles(ContentOf(s)) && Whole(ContentOf(s)) {
      NoCyclesIsSettled(ContentOf(s));
    }
  }

  lemma BatchIsReady(h: Digest, s: State, pending: set<nat>)
    requires Good(h, s, pending)
    ensures pending <= s.targets.Keys && (Settled(ContentOf(s)) ==> Ready(s))
  {
    hide Acyclic, ContentOf, NamedNodes, Ready, NoOrphans, Right, Typed, RuleTypesConsistent, NamesConsistent,
      Transposed;
    if Settled(ContentOf(s)) {
      WholeIsComplete(h, s, pending);
      GoodIsReady(h, s, pending);
    }
  }
}
