/** The reference comparison: two label-keyed graphs, classified and measured
    over maps. Go's map iteration order is arbitrary, so every loop over a map
    picks its next key with `:|`. */
module TargetDiff {
  import opened Wrappers
  import opened ByteStrings
  import opened Distance

  const SOURCE_FILE := Ascii("source file")

  datatype Target = Target(
    name: Text, hash: Text, ruleType: Text, dependencies: seq<Text>, tags: seq<Text>,
    attributes: map<Text, Text>, root: bool, external: bool)

  type Graph = map<Text, Target>

  datatype ChangeType = New | Deleted | Changed

  datatype ChangedTarget = ChangedTarget(
    changeType: ChangeType, before: Option<Target>, after: Option<Target>, distance: int)

  // ---- What the comparison promises, name by name ----

  predicate IsNew(before: Graph, after: Graph, name: Text) {
    name in after && name !in before
  }

  predicate IsDeleted(before: Graph, after: Graph, name: Text) {
    name in before && name !in after
  }

  predicate IsChanged(before: Graph, after: Graph, name: Text) {
    name in before && name in after && before[name].hash != after[name].hash
  }

  /** New or changed: what may lie on the reference's walks. */
  predicate IsDirty(before: Graph, after: Graph, name: Text) {
    IsNew(before, after, name) || IsChanged(before, after, name)
  }

  predicate DependencySetChanged(before: Target, after: Target) {
    || |before.dependencies| != |after.dependencies|
    || exists d :: d in before.dependencies && d !in after.dependencies
  }

  /** A direct change: a new, deleted or source-file target, or a changed rule
      whose change is not explained by its changed rule dependencies alone. */
  predicate IsSeed(before: Graph, after: Graph, name: Text) {
    || IsNew(before, after, name)
    || IsDeleted(before, after, name)
    || (&& IsChanged(before, after, name)
        && (|| after[name].ruleType == SOURCE_FILE
            || !(exists d :: d in after[name].dependencies && IsChanged(before, after, d))
            || DependencySetChanged(before[name], after[name])
            || (exists d ::
                d in after[name].dependencies && IsDirty(before, after, d) && after[d].ruleType == SOURCE_FILE)
            || before[name].attributes != after[name].attributes))
  }

  function Seeds(before: Graph, after: Graph): set<Text> {
    set name | name in after.Keys + before.Keys && IsSeed(before, after, name)
  }

  /** The empty name is never followed. */
  function Named(names: seq<Text>): (r: seq<Text>)
    ensures forall n :: n in r <==> n in names && n != []
    ensures [] !in names ==> r == names
  {
    if names == [] then [] else (if names[0] != [] then [names[0]] else []) + Named(names[1..])
  }

  /** The dependency lists of the targets in `entered`. */
  function WalkDeps(entered: set<Text>, targets: Graph): map<Text, seq<Text>> {
    map n | n in entered && n in targets :: Named(targets[n].dependencies)
  }

  /** Empty names are dropped and nothing else. */
  lemma {:induction false} NamedDropsEmpty(names: seq<Text>)
    ensures multiset(Named(names)) == multiset(names)[[] := 0]
  {
    if names != [] {
      NamedDropsEmpty(names[1..]);
      assert names == [names[0]] + names[1..];
    }
  }

  function DirtyNames(before: Graph, after: Graph): set<Text> {
    set n | n in after && IsDirty(before, after, n)
  }

  /** The entry the comparison must report for `name`, apart from its distance. */
  ghost predicate EntryFor(before: Graph, after: Graph, name: Text, c: ChangedTarget) {
    && c.before == (if name in before then Some(before[name]) else None)
    && c.after == (if name in after then Some(after[name]) else None)
    && c.changeType == (if name !in before then New else if name !in after then Deleted else Changed)
  }

  // ---- The comparison ----

  method ChangedDependencyStatus(beforeTarget: Target, afterTarget: Target, changedByName: map<Text, ChangedTarget>)
    returns (anyChanged: bool, setChanged: bool)
    ensures anyChanged <==>
            exists d :: d in afterTarget.dependencies && d in changedByName && changedByName[d].changeType == Changed
    ensures setChanged <==> DependencySetChanged(beforeTarget, afterTarget)
  {
    var beforeDependencies := beforeTarget.dependencies;
    var lengthsMatch := |beforeDependencies| == |afterTarget.dependencies|;
    var afterDependencies: set<Text> := {};
    anyChanged := false;
    for i := 0 to |afterTarget.dependencies|
      invariant anyChanged <==>
                exists d ::
                    d in afterTarget.dependencies[..i] && d in changedByName && changedByName[d].changeType == Changed
      invariant lengthsMatch ==> forall d :: d in afterDependencies <==> d in afterTarget.dependencies[..i]
    {
      var dependency := afterTarget.dependencies[i];
      assert afterTarget.dependencies[..i + 1] == afterTarget.dependencies[..i] + [dependency];
      if dependency in changedByName && changedByName[dependency].changeType == Changed {
        anyChanged := true;
      }
      if lengthsMatch {
        afterDependencies := afterDependencies + {dependency};
      }
    }
    assert afterTarget.dependencies[..|afterTarget.dependencies|] == afterTarget.dependencies;
    if !lengthsMatch {
      return anyChanged, true;
    }
    for i := 0 to |beforeDependencies|
      invariant forall k :: 0 <= k < i ==> beforeDependencies[k] in afterTarget.dependencies
    {
      if beforeDependencies[i] !in afterDependencies {
        return anyChanged, true;
      }
    }
    return anyChanged, false;
  }

  method HasChangedSourceFileDependency(target: Target, changedByName: map<Text, ChangedTarget>, targetsByName: Graph)
    returns (found: bool)
    ensures found <==>
            exists d ::
                d in target.dependencies && d in changedByName && d in targetsByName &&
                targetsByName[d].ruleType == SOURCE_FILE
  {
    for i := 0 to |target.dependencies|
      invariant forall k | 0 <= k < i ::
          !(var d := target.dependencies[k];
            d in changedByName && d in targetsByName && targetsByName[d].ruleType == SOURCE_FILE)
    {
      var name := target.dependencies[i];
      if name in changedByName && name in targetsByName && targetsByName[name].ruleType == SOURCE_FILE {
        return true;
      }
    }
    return false;
  }

  method AttributesChanged(before: map<Text, Text>, after: map<Text, Text>) returns (changed: bool)
    ensures changed <==> before != after
  {
    if |before| != |after| {
      return true;
    }
    var todo := before.Keys;
    while todo != {}
      invariant todo <= before.Keys
      invariant forall n | n in before && n !in todo :: n in after && after[n] == before[n]
      decreases todo
    {
      var name :| name in todo;
      todo := todo - {name};
      if name !in after || after[name] != before[name] {
        return true;
      }
    }
    assert before.Keys <= after.Keys;
    SameSizeSubset(before.Keys, after.Keys);
    return false;
  }

  lemma SameSizeSubset<T>(s: set<T>, t: set<T>)
    requires s <= t && |s| == |t|
    ensures s == t
  {
    assert t == s + (t - s);
    assert |t| == |s| + |t - s|;
  }

  /** The reverse edges, grouped by the dependency they leave from. */
  method BuildReverseDependencies(targets: Graph) returns (reverse: map<Text, seq<Text>>)
    ensures forall d, n :: (d in reverse && n in reverse[d]) <==> n in targets && d in Named(targets[n].dependencies)
  {
    reverse := map[];
    var todo := targets.Keys;
    while todo != {}
      invariant todo <= targets.Keys
      invariant forall d, n ::
          (d in reverse && n in reverse[d]) <==> n in targets && n !in todo && d in Named(targets[n].dependencies)
      decreases todo
    {
      var name :| name in todo;
      var deps := targets[name].dependencies;
      for i := 0 to |deps|
        invariant forall d, n :: (d in reverse && n in reverse[d]) <==>
          || (n in targets && n !in todo && d in Named(targets[n].dependencies))
          || (n == name && d != [] && d in deps[..i])
      {
        assert deps[..i + 1] == deps[..i] + [deps[i]];
        if deps[i] != [] {
          var others := if deps[i] in reverse then reverse[deps[i]] else [];
          reverse := reverse[deps[i] := others + [name]];
        }
      }
      assert deps[..|deps|] == deps;
      todo := todo - {name};
    }
  }

  /** The recorded distances of the visited names. */
  ghost function Recorded(changed: map<Text, ChangedTarget>, visited: set<Text>): map<Text, int> {
    map n | n in visited && n in changed :: changed[n].distance
  }

  lemma RecordedVisit(changed: map<Text, ChangedTarget>, visited: set<Text>, n: Text, d: int)
    requires visited <= changed.Keys && n in changed
    ensures Recorded(changed[n := changed[n].(distance := d)], visited + {n}) == Recorded(changed, visited)[n := d]
  {
  }

  /** Seeds start at distance 0 and in the queue, the rest at -1. */
  method StartDistances(changedByName: map<Text, ChangedTarget>, seeds: set<Text>)
    returns (result: map<Text, ChangedTarget>, queue: seq<Text>)
    requires seeds <= changedByName.Keys
    ensures result.Keys == changedByName.Keys
    ensures forall n | n in result :: result[n] == changedByName[n].(distance := if n in seeds then 0 else -1)
    ensures forall n :: n in seeds <==> n in queue
  {
    queue, result := [], changedByName;
    var todo := changedByName.Keys;
    while todo != {}
      invariant todo <= changedByName.Keys == result.Keys
      invariant forall n :: n in seeds && n !in todo <==> n in queue
      invariant forall n | n in result ::
          result[n] == if n in todo then changedByName[n]
                       else changedByName[n].(distance := if n in seeds then 0 else -1)
      decreases todo
    {
      var name :| name in todo;
      todo := todo - {name};
      if name in seeds {
        result := result[name := result[name].(distance := 0)];
        queue := queue + [name];
      } else {
        result := result[name := result[name].(distance := -1)];
      }
    }
  }

  /** What the search may have done to the entries so far. */
  ghost predicate OnlyDistances(changedByName: map<Text, ChangedTarget>, visited: set<Text>,
                                result: map<Text, ChangedTarget>) {
    && visited <= result.Keys == changedByName.Keys
    && (forall n | n in result :: result[n] == changedByName[n].(distance := result[n].distance))
    && (forall n | n in result && n !in visited :: result[n].distance == -1)
  }

  /** One turn of the search loop: follow every reverse edge out of `current`. */
  method Expand(current: Text, dependents: seq<Text>, maxDistance: int, visited0: set<Text>, queue0: seq<Text>,
                result0: map<Text, ChangedTarget>,
                ghost changedByName: map<Text, ChangedTarget>, ghost deps: map<Text, seq<Text>>, ghost seeds: set<Text>,
                ghost done: set<Text>)
    returns (visited: set<Text>, queue: seq<Text>, result: map<Text, ChangedTarget>)
    requires OnlyDistances(changedByName, visited0, result0) && current in visited0
    requires Searching(deps, seeds, maxDistance, Recorded(result0, visited0), done, [current] + queue0)
    requires forall n :: n in dependents && n in changedByName <==> n in deps && current in deps[n]
    ensures OnlyDistances(changedByName, visited, result) && visited0 <= visited
    ensures visited == visited0 ==> queue == queue0
    ensures Searching(deps, seeds, maxDistance, Recorded(result, visited), done + {current}, queue)
  {
    hide Searching;
    visited, queue, result := visited0, queue0, result0;
    for i := 0 to |dependents|
      invariant OnlyDistances(changedByName, visited, result) && visited0 <= visited
      invariant visited == visited0 ==> queue == queue0
      invariant Searching(deps, seeds, maxDistance, Recorded(result, visited), done, [current] + queue)
      invariant forall k | 0 <= k < i && dependents[k] in changedByName &&
          InRange(maxDistance, result[current].distance + 1) ::
          dependents[k] in visited
    {
      var dependent := dependents[i];
      if dependent !in visited && dependent in result {
        var distance := result[current].distance + 1;
        if !(maxDistance >= 0 && distance > maxDistance) {
          assert dependent in dependents;
          SearchVisit(deps, seeds, maxDistance, Recorded(result, visited), done, [current] + queue, dependent);
          assert ([current] + queue) + [dependent] == [current] + (queue + [dependent]);
          RecordedVisit(result, visited, dependent, distance);
          visited := visited + {dependent};
          queue := queue + [dependent];
          result := result[dependent := result[dependent].(distance := distance)];
        }
      }
    }
    SearchPop(deps, seeds, maxDistance, Recorded(result, visited), done, [current] + queue);
    assert ([current] + queue)[1..] == queue;
  }

  /** The names that list `current` are its dependents in the walk. */
  lemma DependentsAre(changed: set<Text>, targets: Graph, reverse: map<Text, seq<Text>>, current: Text)
    requires forall d, n :: (d in reverse && n in reverse[d]) <==> n in targets && d in Named(targets[n].dependencies)
    ensures var dependents, deps := if current in reverse then reverse[current] else [], WalkDeps(changed, targets);
      forall n :: n in dependents && n in changed <==> n in deps && current in deps[n]
  {
    hide Named;
  }

  lemma StartIsRight(changedByName: map<Text, ChangedTarget>, seeds: set<Text>, result: map<Text, ChangedTarget>)
    requires seeds <= changedByName.Keys == result.Keys
    requires forall n | n in result :: result[n] == changedByName[n].(distance := if n in seeds then 0 else -1)
    ensures OnlyDistances(changedByName, seeds, result) && Recorded(result, seeds) == map s | s in seeds :: 0
  {
  }

  lemma SearchIsOver(changedByName: map<Text, ChangedTarget>, result: map<Text, ChangedTarget>, visited: set<Text>,
                     deps: map<Text, seq<Text>>,
                     seeds: set<Text>, maxDistance: int, done: set<Text>)
    requires OnlyDistances(changedByName, visited, result)
    requires Searching(deps, seeds, maxDistance, Recorded(result, visited), done, [])
    ensures result.Keys == changedByName.Keys
    ensures forall n | n in result :: result[n] == changedByName[n].(distance := result[n].distance)
    ensures forall n | n in result :: IsDistance(deps, seeds, maxDistance, n, result[n].distance)
  {
    hide Searching, IsDistance, Settled;
    SearchEnd(deps, seeds, maxDistance, Recorded(result, visited), done);
    forall n | n in result ensures IsDistance(deps, seeds, maxDistance, n, result[n].distance) {
      SettledIsDistance(deps, seeds, maxDistance, Recorded(result, visited), n);
    }
  }

  lemma QueueHead(changedByName: map<Text, ChangedTarget>, result: map<Text, ChangedTarget>, visited: set<Text>,
                  deps: map<Text, seq<Text>>,
                  seeds: set<Text>, maxDistance: int, done: set<Text>, queue: seq<Text>)
    requires OnlyDistances(changedByName, visited, result)
    requires Searching(deps, seeds, maxDistance, Recorded(result, visited), done, queue) && queue != []
    ensures queue[0] in visited && visited <= changedByName.Keys && queue == [queue[0]] + queue[1..]
  {
    hide Searching;
    SearchHead(deps, seeds, maxDistance, Recorded(result, visited), done, queue);
  }

  method ComputeDistances(changedByName: map<Text, ChangedTarget>, targets: Graph, seeds: set<Text>, maxDistance: int)
    returns (result: map<Text, ChangedTarget>)
    requires seeds <= changedByName.Keys
    ensures result.Keys == changedByName.Keys
    ensures forall n | n in result :: result[n] == changedByName[n].(distance := result[n].distance)
    ensures forall n | n in result ::
        IsDistance(WalkDeps(changedByName.Keys, targets), seeds, maxDistance, n, result[n].distance)
  {
    hide Searching, IsDistance, Recorded, OnlyDistances, WalkDeps;
    var reverse := BuildReverseDependencies(targets);
    ghost var deps := WalkDeps(changedByName.Keys, targets);
    var queue;
    result, queue := StartDistances(changedByName, seeds);
    var visited := seeds;
    ghost var done: set<Text> := {};
    SearchStart(deps, seeds, maxDistance, queue);
    StartIsRight(changedByName, seeds, result);
    while queue != []
      invariant OnlyDistances(changedByName, visited, result)
      invariant Searching(deps, seeds, maxDistance, Recorded(result, visited), done, queue)
      decreases changedByName.Keys - visited, |queue|
    {
      var current := queue[0];
      QueueHead(changedByName, result, visited, deps, seeds, maxDistance, done, queue);
      DependentsAre(changedByName.Keys, targets, reverse, current);
      var dependents := if current in reverse then reverse[current] else [];
      visited, queue, result := Expand(current, dependents, maxDistance, visited, queue[1..], result, changedByName,
                                       deps, seeds, done);
      VisitedWithin(changedByName, visited, result);
      done := done + {current};
    }
    SearchIsOver(changedByName, result, visited, deps, seeds, maxDistance, done);
  }

  lemma VisitedWithin(changedByName: map<Text, ChangedTarget>, visited: set<Text>, result: map<Text, ChangedTarget>)
    requires OnlyDistances(changedByName, visited, result)
    ensures visited <= changedByName.Keys
  {
  }

  /** The first pass of Compare: what is new or has another hash. */
  method ClassifyAfter(before: Graph, after: Graph) returns (changedByName: map<Text, ChangedTarget>, seeds: set<Text>)
    ensures changedByName.Keys == DirtyNames(before, after)
    ensures forall n | n in changedByName :: EntryFor(before, after, n, changedByName[n])
    ensures seeds == EarlySeeds(before, after)
  {
    changedByName, seeds := map[], {};
    var todo := after.Keys;
    while todo != {}
      invariant todo <= after.Keys
      invariant changedByName.Keys == DirtyNames(before, after) - todo
      invariant forall n | n in changedByName :: EntryFor(before, after, n, changedByName[n])
      invariant seeds == EarlySeeds(before, after) - todo
      decreases todo
    {
      var name :| name in todo;
      todo := todo - {name};
      var afterTarget := after[name];
      if name !in before {
        changedByName := changedByName[name := ChangedTarget(New, None, Some(afterTarget), 0)];
        seeds := seeds + {name};
        continue;
      }
      if before[name].hash == afterTarget.hash {
        continue;
      }
      if afterTarget.ruleType == SOURCE_FILE {
        seeds := seeds + {name};
      }
      changedByName := changedByName[name := ChangedTarget(Changed, Some(before[name]), Some(afterTarget), 0)];
    }
  }

  /** The seeds known from the first pass alone. */
  function EarlySeeds(before: Graph, after: Graph): set<Text> {
    set n | n in after && (IsNew(before, after, n) || (IsChanged(before, after, n) && after[n].ruleType == SOURCE_FILE))
  }

  /** The second pass of Compare: rules whose own state changed. */
  method ClassifySeeds(before: Graph, after: Graph, changedByName: map<Text, ChangedTarget>, seeds0: set<Text>)
    returns (seeds: set<Text>)
    requires changedByName.Keys == DirtyNames(before, after)
    requires forall n | n in changedByName :: EntryFor(before, after, n, changedByName[n])
    requires seeds0 == EarlySeeds(before, after)
    ensures seeds == Seeds(before, after) - (before.Keys - after.Keys)
  {
    seeds := seeds0;
    var todo := changedByName.Keys;
    while todo != {}
      invariant todo <= changedByName.Keys
      invariant seeds == set n | n in after && IsSeed(before, after, n) && (n !in todo || n in seeds0)
      decreases todo
    {
      var name :| name in todo;
      todo := todo - {name};
      if name in seeds || changedByName[name].changeType != Changed {
        continue;
      }
      var anyChanged, dependenciesChanged := ChangedDependencyStatus(before[name], after[name], changedByName);
      if !anyChanged || dependenciesChanged {
        seeds := seeds + {name};
        continue;
      }
      var sourceChanged := HasChangedSourceFileDependency(after[name], changedByName, after);
      if sourceChanged {
        seeds := seeds + {name};
        continue;
      }
      var attrsChanged := AttributesChanged(before[name].attributes, after[name].attributes);
      if attrsChanged {
        seeds := seeds + {name};
      }
    }
  }

  /** The last pass of Compare before distances: every deleted target is a seed. */
  method AddDeleted(before: Graph, after: Graph, changed0: map<Text, ChangedTarget>, seeds0: set<Text>)
    returns (changedByName: map<Text, ChangedTarget>, seeds: set<Text>)
    requires forall n | n in changed0 :: n in after && EntryFor(before, after, n, changed0[n])
    ensures changedByName.Keys == changed0.Keys + (before.Keys - after.Keys)
    ensures forall n | n in changedByName :: EntryFor(before, after, n, changedByName[n])
    ensures seeds == seeds0 + (before.Keys - after.Keys)
  {
    changedByName, seeds := changed0, seeds0;
    var todo := before.Keys;
    while todo != {}
      invariant todo <= before.Keys
      invariant changedByName.Keys == changed0.Keys + (before.Keys - after.Keys - todo)
      invariant forall n | n in changedByName :: EntryFor(before, after, n, changedByName[n])
      invariant seeds == seeds0 + (before.Keys - after.Keys - todo)
      decreases todo
    {
      var name :| name in todo;
      todo := todo - {name};
      if name in after {
        continue;
      }
      changedByName := changedByName[name := ChangedTarget(Deleted, Some(before[name]), None, 0)];
      seeds := seeds + {name};
    }
  }

  method Compare(before: Graph, after: Graph, maxDistance: int) returns (changedByName: map<Text, ChangedTarget>)
    ensures changedByName.Keys == DirtyNames(before, after) + (before.Keys - after.Keys)
    ensures forall n | n in changedByName :: EntryFor(before, after, n, changedByName[n])
    ensures forall n | n in changedByName ::
      IsDistance(WalkDeps(DirtyNames(before, after), after), Seeds(before, after), maxDistance, n,
                 changedByName[n].distance)
  {
    var seeds;
    changedByName, seeds := ClassifyAfter(before, after);
    seeds := ClassifySeeds(before, after, changedByName, seeds);
    changedByName, seeds := AddDeleted(before, after, changedByName, seeds);
    assert seeds == Seeds(before, after);
    assert WalkDeps(changedByName.Keys, after) == WalkDeps(DirtyNames(before, after), after);
    ghost var classified := changedByName;
    changedByName := ComputeDistances(changedByName, after, seeds, maxDistance);
    assert forall n | n in changedByName :: EntryFor(before, after, n, classified[n]);
  }
}
