/** Building the incremental graph from a fully hashed target map. */
module ItgOptimize {
  import opened Wrappers
  import opened ByteStrings
  import opened Merkle
  import opened ItgState
  import opened ItgUpdate
  import opened ItgGraph
  import opened ItgContent
  import opened ItgHashing
  import opened ItgRoots

  /** A target of a full computation, with its root mark. */
  datatype Computed = Computed(target: NewTarget, root: bool)

  type Source = map<Text, Computed>

  /** The stored form of `c`, before its dependents are known. */
  ghost predicate Stores(s: State, t: Target, c: Computed) {
    && Known(s, c.target.deps)
    && t.ruleType in s.ruleTypes && s.ruleTypes[t.ruleType] == c.target.ruleType
    && t == Target(c.target.hash, c.target.own, t.ruleType, DepIDs(s, c.target.deps), {}, c.root)
  }

  ghost predicate TablesConsistent(s: State) {
    && Inverse(s.nameToID, s.idToName) && (forall i | i in s.idToName :: i < s.nextID)
    && Inverse(s.ruleTypeToID, s.ruleTypes) && (forall i | i in s.ruleTypes :: i < |s.ruleTypeToID|)
  }

  /** Exactly the targets `done` are stored; only they and their dependencies
      have IDs. */
  ghost predicate Added(s: State, source: Source, done: set<Text>)
    requires done <= source.Keys
  {
    && TablesConsistent(s)
    && (forall i | i in s.targets ::
          i in s.idToName && s.idToName[i] in done && Stores(s, s.targets[i], source[s.idToName[i]]))
    && (forall n | n in done :: n in s.nameToID && s.nameToID[n] in s.targets)
    && (forall n | n in s.nameToID :: n in source)
  }

  ghost predicate NamedByKey(source: Source) {
    forall n | n in source :: source[n].target.name == n
  }

  /** Every dependency is itself in the map. */
  ghost predicate ClosedSource(source: Source) {
    forall n, d | n in source && d in source[n].target.deps :: d in source
  }

  // ---- IDs for names ----

  lemma NamingKeeps(s: State, name: Text)
    requires TablesConsistent(s)
    ensures TablesConsistent(WithName(s, name))
    ensures name in WithName(s, name).nameToID && WithName(s, name).nameToID[name] == IDFor(s, name)
    ensures forall n | n in s.nameToID ::
        n in WithName(s, name).nameToID && WithName(s, name).nameToID[n] == s.nameToID[n]
    ensures forall i | i in s.idToName ::
        i in WithName(s, name).idToName && WithName(s, name).idToName[i] == s.idToName[i]
    ensures forall n | n in WithName(s, name).nameToID :: n in s.nameToID || n == name
  {
    InsertInverse(s.nameToID, s.idToName, name, IDFor(s, name));
    hide Inverse;
    if name in s.nameToID {
      SameNames(s, name);
    } else {
      forall n | n in s.nameToID ensures n != name {
      }
      FreshID(s);
    }
  }

  lemma SameNames(s: State, name: Text)
    requires Inverse(s.nameToID, s.idToName) && name in s.nameToID
    ensures s.idToName[s.nameToID[name] := name] == s.idToName
  {
  }

  lemma FreshID(s: State)
    requires TablesConsistent(s)
    ensures s.nextID !in s.idToName
  {
  }

  lemma TypingInverse(s: State, ruleType: Text)
    requires TablesConsistent(s)
    ensures Inverse(WithRuleType(s, ruleType).ruleTypeToID, WithRuleType(s, ruleType).ruleTypes)
  {
    InsertInverse(s.ruleTypeToID, s.ruleTypes, ruleType, RuleTypeFor(s, ruleType));
  }

  lemma TypingKeeps(s: State, ruleType: Text)
    requires TablesConsistent(s)
    ensures TablesConsistent(WithRuleType(s, ruleType))
    ensures RuleTypeFor(s, ruleType) in WithRuleType(s, ruleType).ruleTypes
    ensures WithRuleType(s, ruleType).ruleTypes[RuleTypeFor(s, ruleType)] == ruleType
    ensures Extends(s, WithRuleType(s, ruleType))
  {
    hide Inverse, Extends;
    TypingInverse(s, ruleType);
    TypesCounted(s, ruleType);
    TypingExtends(s, ruleType);
  }

  lemma TypesCounted(s: State, ruleType: Text)
    requires TablesConsistent(s)
    ensures RuleTypeFor(s, ruleType) < |WithRuleType(s, ruleType).ruleTypeToID|
    ensures |s.ruleTypeToID| <= |WithRuleType(s, ruleType).ruleTypeToID|
  {
    hide Inverse;
    assert WithRuleType(s, ruleType).ruleTypeToID.Keys == s.ruleTypeToID.Keys + {ruleType};
    KnownType(s, ruleType);
  }

  lemma TypingExtends(s: State, ruleType: Text)
    requires TablesConsistent(s)
    ensures Extends(s, WithRuleType(s, ruleType))
  {
    hide Inverse, TablesConsistent;
    KnownType(s, ruleType);
  }

  lemma KnownType(s: State, ruleType: Text)
    requires TablesConsistent(s)
    ensures RuleTypeFor(s, ruleType) in s.ruleTypes ==> s.ruleTypes[RuleTypeFor(s, ruleType)] == ruleType
    ensures ruleType in s.ruleTypeToID ==> RuleTypeFor(s, ruleType) in s.ruleTypes
  {
  }

  /** `s'` knows all that `s` knows. */
  ghost predicate Extends(s: State, s': State) {
    && (forall n | n in s.nameToID :: n in s'.nameToID && s'.nameToID[n] == s.nameToID[n])
    && (forall i | i in s.idToName :: i in s'.idToName && s'.idToName[i] == s.idToName[i])
    && (forall i | i in s.ruleTypes :: i in s'.ruleTypes && s'.ruleTypes[i] == s.ruleTypes[i])
  }

  lemma StoresStays(s: State, s': State, t: Target, c: Computed)
    requires Stores(s, t, c) && Extends(s, s')
    ensures Stores(s', t, c)
  {
    assert DepIDs(s', c.target.deps) == DepIDs(s, c.target.deps);
  }

  /** Gives every name of `deps` an ID. */
  method NameAll(g: OptimizedGraph, deps: seq<Text>) returns (depIDs: set<nat>)
    requires g.Keyed() && TablesConsistent(g.Abs())
    modifies g
    ensures g.OptimizedTargets == old(g.OptimizedTargets) && TablesConsistent(g.Abs()) && Extends(old(g.Abs()), g.Abs())
    ensures g.Abs().ruleTypeToID == old(g.Abs().ruleTypeToID) && g.Abs().ruleTypes == old(g.Abs().ruleTypes)
    ensures Known(g.Abs(), deps) && depIDs == DepIDs(g.Abs(), deps)
    ensures forall n | n in g.TargetNameToID :: n in old(g.TargetNameToID) || n in deps
  {
    hide TablesConsistent, WithName, IDFor;
    depIDs := {};
    var i := 0;
    while i < |deps|
      invariant 0 <= i <= |deps| && g.OptimizedTargets == old(g.OptimizedTargets)
      invariant TablesConsistent(g.Abs()) && Extends(old(g.Abs()), g.Abs())
      invariant g.Abs().ruleTypeToID == old(g.Abs().ruleTypeToID) && g.Abs().ruleTypes == old(g.Abs().ruleTypes)
      invariant Known(g.Abs(), deps[..i]) && depIDs == DepIDs(g.Abs(), deps[..i])
      invariant forall n | n in g.TargetNameToID :: n in old(g.TargetNameToID) || n in deps
    {
      ghost var before := g.Abs();
      NamingKeeps(before, deps[i]);
      NamingTables(before, deps[i]);
      var id := g.GetOrGenerateTargetID(deps[i]);
      assert deps[..i + 1] == deps[..i] + [deps[i]];
      depIDs := depIDs + {id};
      i := i + 1;
    }
    assert deps[..i] == deps;
  }

  lemma NamingTables(s: State, name: Text)
    ensures WithName(s, name).ruleTypeToID == s.ruleTypeToID && WithName(s, name).ruleTypes == s.ruleTypes
    ensures WithName(s, name).targets == s.targets
  {
  }

  lemma StoredAndAdded(s0: State, s1: State, s': State, source: Source, done: set<Text>, c: Computed, t: Target)
    requires done <= source.Keys && Added(s0, source, done) && c.target.name in source && source[c.target.name] == c
    requires ClosedSource(source) && TablesConsistent(s1) && Extends(s0, s1) && Known(s1, c.target.deps)
    requires c.target.name in s1.nameToID && t.ruleType in s1.ruleTypes
    requires s1.ruleTypes[t.ruleType] == c.target.ruleType
    requires t == Target(c.target.hash, c.target.own, t.ruleType, DepIDs(s1, c.target.deps), {}, c.root)
    requires s' == s1.(targets := s0.targets[s1.nameToID[c.target.name] := t])
    requires forall n | n in s1.nameToID :: n in s0.nameToID || n == c.target.name || n in c.target.deps
    ensures Added(s', source, done + {c.target.name})
  {
    hide *;
    StoredNow(s1, c, t);
    StoredByTables(s0, s1, s', t, c);
    AddedOneMore(s0, s', source, done, c, t);
  }

  /** Stores one target under its name's ID. */
  method AddTarget(g: OptimizedGraph, c: Computed, ghost source: Source, ghost done: set<Text>)
    requires g.Keyed() && done <= source.Keys && Added(g.Abs(), source, done)
    requires NamedByKey(source) && ClosedSource(source) && c.target.name in source && source[c.target.name] == c
    requires c.target.name !in done
    modifies g
    ensures g.Keyed() && fresh(g.OptimizedTargets.Values - old(g.OptimizedTargets.Values))
    ensures Added(g.Abs(), source, done + {c.target.name})
  {
    hide TablesConsistent, Stores, Added, Extends, ClosedSource, NamedByKey, Known, DepIDs, Inverse;
    ghost var s0 := g.Abs();
    AddedTables(s0, source, done);
    var id, depIDs, ruleTypeID := Register(g, c);
    ghost var s1 := g.Abs();
    var target := Target(c.target.hash, c.target.own, ruleTypeID, depIDs, {}, c.root);
    g.Insert(id, target);
    StoredAndAdded(s0, s1, g.Abs(), source, done, c, target);
  }

  /** Gives the target, its dependencies and its rule type their IDs. */
  method Register(g: OptimizedGraph, c: Computed) returns (id: nat, depIDs: set<nat>, ruleTypeID: nat)
    requires g.Keyed() && TablesConsistent(g.Abs())
    modifies g
    ensures g.OptimizedTargets == old(g.OptimizedTargets) && TablesConsistent(g.Abs()) && Extends(old(g.Abs()), g.Abs())
    ensures c.target.name in g.TargetNameToID && g.TargetNameToID[c.target.name] == id
    ensures Known(g.Abs(), c.target.deps) && depIDs == DepIDs(g.Abs(), c.target.deps)
    ensures ruleTypeID in g.RuleTypeIDToString && g.RuleTypeIDToString[ruleTypeID] == c.target.ruleType
    ensures forall n | n in g.TargetNameToID :: n in old(g.TargetNameToID) || n == c.target.name || n in c.target.deps
  {
    hide TablesConsistent, WithName, IDFor, WithRuleType, RuleTypeFor;
    ghost var s0 := g.Abs();
    NamingKeeps(s0, c.target.name);
    NamingTables(s0, c.target.name);
    id := g.GetOrGenerateTargetID(c.target.name);
    depIDs := NameAll(g, c.target.deps);
    TypingKeeps(g.Abs(), c.target.ruleType);
    TypingTables(g.Abs(), c.target.ruleType);
    ruleTypeID := g.GetOrGenerateRuleType(c.target.ruleType);
  }

  lemma AddedTables(s: State, source: Source, done: set<Text>)
    requires done <= source.Keys && Added(s, source, done)
    ensures TablesConsistent(s)
  {
  }

  lemma StoredByTables(s0: State, s: State, s': State, t: Target, c: Computed)
    requires Stores(s, t, c) && TablesConsistent(s) && Extends(s0, s) && s' == s.(targets := s'.targets)
    ensures Stores(s', t, c) && TablesConsistent(s') && Extends(s0, s')
  {
    hide Inverse;
    assert Known(s, c.target.deps) ==>
             Known(s', c.target.deps) && DepIDs(s', c.target.deps) == DepIDs(s, c.target.deps);
  }

  lemma AddedOneMore(s: State, s': State, source: Source, done: set<Text>, c: Computed, t: Target)
    requires done <= source.Keys && Added(s, source, done) && c.target.name in source && source[c.target.name] == c
    requires ClosedSource(source)
    requires TablesConsistent(s') && Extends(s, s') && c.target.name in s'.nameToID
    requires s'.targets == s.targets[s'.nameToID[c.target.name] := t] && Stores(s', t, c)
    requires forall n | n in s'.nameToID :: n in s.nameToID || n == c.target.name || n in c.target.deps
    ensures Added(s', source, done + {c.target.name})
  {
    hide Stores, Extends;
    var id := s'.nameToID[c.target.name];
    assert id in s'.idToName && s'.idToName[id] == c.target.name;
    hide TablesConsistent;
    forall i | i in s'.targets
      ensures i in s'.idToName && s'.idToName[i] in done + {c.target.name}
      ensures Stores(s', s'.targets[i], source[s'.idToName[i]])
    {
      if i != id {
        AddedAt(s, s', source, done, i);
      }
    }
    forall n | n in done ensures n in s'.nameToID && s'.nameToID[n] in s'.targets {
      ExtendedName(s, s', n);
    }
  }

  lemma ExtendedName(s: State, s': State, n: Text)
    requires Extends(s, s') && n in s.nameToID
    ensures n in s'.nameToID && s'.nameToID[n] == s.nameToID[n]
  {
  }

  lemma AddedAt(s: State, s': State, source: Source, done: set<Text>, i: nat)
    requires done <= source.Keys && Added(s, source, done) && Extends(s, s') && i in s.targets
    ensures i in s'.idToName && s'.idToName[i] in done && Stores(s', s.targets[i], source[s'.idToName[i]])
  {
    hide TablesConsistent;
    StoresStays(s, s', s.targets[i], source[s.idToName[i]]);
  }

  lemma TypingTables(s: State, ruleType: Text)
    ensures var s' := WithRuleType(s, ruleType);
      s'.nameToID == s.nameToID && s'.idToName == s.idToName && s'.targets == s.targets
  {
  }

  lemma StoredNow(s: State, c: Computed, t: Target)
    requires Known(s, c.target.deps) && t.ruleType in s.ruleTypes && s.ruleTypes[t.ruleType] == c.target.ruleType
    requires t == Target(c.target.hash, c.target.own, t.ruleType, DepIDs(s, c.target.deps), {}, c.root)
    ensures Stores(s, t, c)
  {
  }

  method AddAll(g: OptimizedGraph, source: Source)
    requires g.Keyed() && g.Abs() == State(map[], map[], map[], 0, map[], map[]) && NamedByKey(source)
    requires ClosedSource(source)
    modifies g
    ensures g.Keyed() && fresh(g.OptimizedTargets.Values - old(g.OptimizedTargets.Values))
    ensures Added(g.Abs(), source, source.Keys)
  {
    hide Added;
    ghost var done: set<Text> := {};
    var left := source.Keys;
    NothingAdded(source);
    while left != {}
      invariant left <= source.Keys && done == source.Keys - left
      invariant g.Keyed() && fresh(g.OptimizedTargets.Values - old(g.OptimizedTargets.Values))
      invariant Added(g.Abs(), source, done)
      decreases left
    {
      var n :| n in left;
      AddTarget(g, source[n], source, done);
      left := left - {n};
      done := done + {n};
    }
    assert done == source.Keys;
  }

  lemma NothingAdded(source: Source)
    ensures Added(State(map[], map[], map[], 0, map[], map[]), source, {})
  {
  }

  // ---- Reverse dependencies ----

  ghost function DependentsIn(pairs: set<(nat, nat)>, x: nat): set<nat> {
    set p | p in pairs && p.1 == x :: p.0
  }

  /** The dependents recorded by the edges `pairs` of (dependent, dependency). */
  ghost function WithEdges(targets: map<nat, Target>, pairs: set<(nat, nat)>): map<nat, Target> {
    map x | x in targets :: targets[x].(reverseDeps := DependentsIn(pairs, x))
  }

  ghost function EdgesOf(targets: map<nat, Target>, ids: set<nat>): set<(nat, nat)> {
    set i, d | i in ids && i in targets && d in targets[i].deps :: (i, d)
  }

  lemma OneMoreEdge(targets: map<nat, Target>, pairs: set<(nat, nat)>, i: nat, d: nat)
    ensures d in targets ==>
      WithEdges(targets, pairs)[d := WithEdges(targets, pairs)[d].(reverseDeps :=
          WithEdges(targets, pairs)[d].reverseDeps + {i})] ==
      WithEdges(targets, pairs + {(i, d)})
    ensures d !in targets ==> WithEdges(targets, pairs) == WithEdges(targets, pairs + {(i, d)})
  {
    var more := pairs + {(i, d)};
    forall x ensures DependentsIn(more, x) == DependentsIn(pairs, x) + if x == d then {i} else {} {
      if x == d {
        assert (i, d) in more;
      }
    }
    hide DependentsIn;
    var here, there := WithEdges(targets, pairs), WithEdges(targets, more);
    forall x | x in targets && x != d ensures here[x] == there[x] {
      NothingMore(DependentsIn(pairs, x));
    }
  }

  lemma NothingMore(s: set<nat>)
    ensures s + {} == s
  {
  }

  ghost function PartOf(i: nat, deps: set<nat>): set<(nat, nat)> {
    set d | d in deps :: (i, d)
  }

  lemma OneMorePart(i: nat, deps: set<nat>, d: nat)
    ensures PartOf(i, deps + {d}) == PartOf(i, deps) + {(i, d)}
  {
  }

  lemma OneMoreTarget(targets: map<nat, Target>, ids: set<nat>, i: nat)
    requires i in targets
    ensures EdgesOf(targets, ids + {i}) == EdgesOf(targets, ids) + PartOf(i, targets[i].deps)
  {
  }

  method AddDependents(g: OptimizedGraph, id: nat, ghost was: map<nat, Target>, ghost pairs: set<(nat, nat)>)
    requires g.Keyed() && id in g.OptimizedTargets && id in was && g.Values() == WithEdges(was, pairs)
    modifies g.OptimizedTargets.Values
    ensures g.Values() == WithEdges(was, pairs + PartOf(id, was[id].deps))
  {
    hide WithEdges, PartOf;
    EdgesKeep(was, pairs);
    assert g.OptimizedTargets[id].Value() == g.Values()[id];
    var left := g.OptimizedTargets[id].Deps;
    ghost var done: set<nat> := {};
    NoPart(id);
    assert pairs + {} == pairs;
    while left != {}
      invariant left <= was[id].deps && done == was[id].deps - left
      invariant g.Keyed() && g.Values() == WithEdges(was, pairs + PartOf(id, done))
      decreases left
    {
      var depID :| depID in left;
      EdgesKeep(was, pairs + PartOf(id, done));
      OneMoreEdge(was, pairs + PartOf(id, done), id, depID);
      OneMorePart(id, done, depID);
      assert pairs + PartOf(id, done) + {(id, depID)} == pairs + PartOf(id, done + {depID});
      if depID in g.OptimizedTargets {
        InsertReverseDepOnly(g, depID, id);
      }
      left := left - {depID};
      done := done + {depID};
    }
    assert done == was[id].deps;
  }

  method InsertReverseDepOnly(g: OptimizedGraph, id: nat, dependent: nat)
    requires g.Keyed() && id in g.OptimizedTargets
    modifies g.OptimizedTargets[id]
    ensures var ts := old(g.Values()); g.Values() == ts[id := ts[id].(reverseDeps := ts[id].reverseDeps + {dependent})]
  {
    var child := g.OptimizedTargets[id];
    child.ReverseDeps := child.ReverseDeps + {dependent};
  }

  lemma EdgesKeep(targets: map<nat, Target>, pairs: set<(nat, nat)>)
    ensures WithEdges(targets, pairs).Keys == targets.Keys
    ensures forall x | x in targets :: WithEdges(targets, pairs)[x].deps == targets[x].deps
  {
  }

  lemma NoPart(i: nat)
    ensures PartOf(i, {}) == {}
  {
  }

  method AddReverseDeps(g: OptimizedGraph)
    requires g.Keyed() && forall id | id in g.Values() :: g.Values()[id].reverseDeps == {}
    modifies g.OptimizedTargets.Values
    ensures g.Values() == WithEdges(old(g.Values()), EdgesOf(old(g.Values()), old(g.Values()).Keys))
  {
    hide WithEdges, EdgesOf, PartOf;
    ghost var was := g.Values();
    ghost var done: set<nat> := {};
    NoEdges(was);
    var left := g.OptimizedTargets.Keys;
    while left != {}
      invariant left <= was.Keys && done == was.Keys - left
      invariant g.Keyed() && g.Values() == WithEdges(was, EdgesOf(was, done))
      decreases left
    {
      var id :| id in left;
      EdgesKeep(was, EdgesOf(was, done));
      OneMoreTarget(was, done, id);
      AddDependents(g, id, was, EdgesOf(was, done));
      left := left - {id};
      done := done + {id};
    }
    assert done == was.Keys;
  }

  lemma NoEdges(targets: map<nat, Target>)
    requires forall id | id in targets :: targets[id].reverseDeps == {}
    ensures EdgesOf(targets, {}) == {} && WithEdges(targets, {}) == targets
  {
    forall x ensures DependentsIn({}, x) == {} {
    }
  }

  // ---- The built graph ----

  ghost function Linked(s: State): State {
    s.(targets := WithEdges(s.targets, EdgesOf(s.targets, s.targets.Keys)))
  }

  lemma LinkedTarget(s: State, x: nat)
    requires x in s.targets
    ensures x in Linked(s).targets
    ensures Linked(s).targets[x] == s.targets[x].(reverseDeps := Linked(s).targets[x].reverseDeps)
    ensures forall i :: i in Linked(s).targets[x].reverseDeps <==> i in s.targets && x in s.targets[i].deps
  {
    var pairs := EdgesOf(s.targets, s.targets.Keys);
    forall i ensures i in DependentsIn(pairs, x) <==> i in s.targets && x in s.targets[i].deps {
      if i in s.targets && x in s.targets[i].deps {
        assert (i, x) in pairs;
      }
    }
    hide EdgesOf;
  }

  lemma AddedDeps(s: State, source: Source, i: nat)
    requires Added(s, source, source.Keys) && i in s.targets
    ensures s.targets[i].deps <= s.targets.Keys && s.targets[i].ruleType in s.ruleTypes
  {
    hide TablesConsistent;
    assert Stores(s, s.targets[i], source[s.idToName[i]]);
  }

  lemma BuiltNames(s: State, source: Source)
    requires Added(s, source, source.Keys)
    ensures NamesConsistent(Linked(s))
  {
    hide Stores, WithEdges, EdgesOf;
    EdgesKeep(s.targets, EdgesOf(s.targets, s.targets.Keys));
    forall i | i in s.idToName ensures i in s.targets {
    }
  }

  lemma BuiltRuleTypes(s: State, source: Source)
    requires Added(s, source, source.Keys)
    ensures RuleTypesConsistent(Linked(s))
  {
    hide Stores, WithEdges, EdgesOf, Inverse;
    forall i | i in Linked(s).targets ensures i in s.targets && Linked(s).targets[i].ruleType in s.ruleTypes {
      EdgesKeep(s.targets, EdgesOf(s.targets, s.targets.Keys));
      AddedDeps(s, source, i);
      LinkedTarget(s, i);
    }
  }

  lemma BuiltEdges(s: State, source: Source)
    requires Added(s, source, source.Keys)
    ensures Transposed(Linked(s).targets)
  {
    hide Linked, Added;
    var targets' := Linked(s).targets;
    LinkedKeys(s);
    forall x | x in s.targets
      ensures targets'[x].deps == s.targets[x].deps && targets'[x].deps <= s.targets.Keys
      ensures forall i :: i in targets'[x].reverseDeps <==> i in s.targets && x in s.targets[i].deps
    {
      LinkedTarget(s, x);
      AddedDeps(s, source, x);
    }
  }

  lemma LinkedKeys(s: State)
    ensures Linked(s) == s.(targets := Linked(s).targets) && Linked(s).targets.Keys == s.targets.Keys
  {
    hide EdgesOf, DependentsIn;
  }

  ghost function SourceContent(source: Source): Content {
    map n | n in source :: NewEntry(source[n].target)
  }

  lemma BuiltEntry(s: State, source: Source, n: Text)
    requires Added(s, source, source.Keys) && n in source
    ensures n in s.nameToID && s.nameToID[n] in s.targets && s.nameToID[n] in Linked(s).targets
    ensures EntryOf(Linked(s), s.nameToID[n]) == NewEntry(source[n].target)
    ensures Stores(s, s.targets[s.nameToID[n]], source[n])
  {
    var id := s.nameToID[n];
    assert s.idToName[id] == n;
    var c := source[n];
    assert Stores(s, s.targets[id], c);
    LinkedTarget(s, id);
    LinkedKeys(s);
    hide Linked, WithEdges;
    var here, there := DepNames(Linked(s), s.targets[id].deps), set d | d in c.target.deps;
    forall d ensures d in here <==> d in there {
      if d in there {
        assert s.nameToID[d] in DepIDs(s, c.target.deps);
      }
    }
  }

  lemma BuiltContent(s: State, source: Source)
    requires Added(s, source, source.Keys)
    ensures ContentOf(Linked(s)) == SourceContent(source)
  {
    hide Linked, Stores, TablesConsistent, EntryOf, NewEntry;
    LinkedKeys(s);
    forall n | n in source ensures n in ContentOf(Linked(s)) && ContentOf(Linked(s))[n] == NewEntry(source[n].target) {
      BuiltEntry(s, source, n);
    }
  }

  /** What a full computation promises of each target. */
  ghost predicate WellComputed(c: Computed) {
    && c.target.hash.Some?
    && (IsLeafType(c.target.ruleType) ==> c.target.deps == [])
    && (c.target.ruleType == GENERATED_FILE ==> |c.target.deps| == 1)
    && (!IsLeafType(c.target.ruleType) && c.target.ruleType != GENERATED_FILE ==> c.target.own.Some?)
  }

  /** Every hash is the full hash of the acyclic source graph. */
  ghost predicate FullyHashed(h: Digest, source: Source) {
    && Acyclic(NamedNodes(SourceContent(source)))
    && forall n | n in source ::
          WellComputed(source[n]) && source[n].target.hash == Some(FullHash(h, NamedNodes(SourceContent(source)), n))
  }

  lemma BuiltComplete(s: State, source: Source, id: nat)
    requires Added(s, source, source.Keys) && id in s.targets && WellComputed(source[s.idToName[id]])
    ensures id in Linked(s).targets && Complete(Linked(s), id) && Linked(s).targets[id].hash.Some?
  {
    LinkedTarget(s, id);
    LinkedKeys(s);
    var c := source[s.idToName[id]];
    assert Stores(s, s.targets[id], c);
    hide Linked, TablesConsistent;
    if c.target.ruleType == GENERATED_FILE {
      OneDepID(s, c.target.deps);
    }
  }

  lemma BuiltHash(h: Digest, s: State, source: Source, rank: map<Text, nat>, id: nat)
    requires Added(s, source, source.Keys) && FullyHashed(h, source) && id in s.targets
    requires Readable(Linked(s)) && Ranked(NamedNodes(ContentOf(Linked(s))), rank)
    requires Linked(s).idToName.Values <= rank.Keys && Ranked(Nodes(Linked(s)), RankByID(Linked(s), rank))
    ensures HashIs(h, Linked(s), RankByID(Linked(s), rank), id, Linked(s).targets[id].hash)
  {
    var s' := Linked(s);
    LinkedKeys(s);
    LinkedTarget(s, id);
    var n := s.idToName[id];
    assert Stores(s, s.targets[id], source[n]);
    BuiltContent(s, source);
    hide Linked, TablesConsistent, NamedNodes, SourceContent, Nodes, Ranked, Readable, WellComputed, ContentOf, Acyclic,
      RankByID, RenamedBy;
    NamesRename(s');
    var g, g' := Nodes(s'), NamedNodes(ContentOf(s'));
    RenamingKeepsHash(h, g, g', s'.idToName, RankByID(s', rank), rank, id);
    HashIgnoresRank(h, g', rank, RankOf(g'), n);
  }

  lemma BuiltReadable(h: Digest, s: State, source: Source)
    requires Added(s, source, source.Keys) && FullyHashed(h, source)
    ensures Readable(Linked(s))
    ensures forall x | x in Linked(s).targets :: Linked(s).targets[x].hash.Some?
  {
    hide Linked, TablesConsistent, Stores, WellComputed, Complete, NamesConsistent, Transposed, NamedNodes, Acyclic;
    BuiltNames(s, source);
    BuiltEdges(s, source);
    LinkedKeys(s);
    forall x | x in s.targets ensures Complete(Linked(s), x) && Linked(s).targets[x].hash.Some? {
      BuiltComplete(s, source, x);
    }
  }

  /** A graph built from a full computation has nothing to recompute. */
  lemma BuiltGood(h: Digest, s: State, source: Source)
    requires Added(s, source, source.Keys) && FullyHashed(h, source)
    ensures Good(h, Linked(s), {})
  {
    hide Linked, Added, WellComputed, Complete, NamesConsistent, RuleTypesConsistent, Transposed, NamedNodes, Nodes,
      Acyclic, Ranked, ContentOf, SourceContent, RankByID, HashIs, Right, Typed;
    var s' := Linked(s);
    BuiltReadable(h, s, source);
    BuiltRuleTypes(s, source);
    BuiltContent(s, source);
    var rank := RankOf(NamedNodes(ContentOf(s')));
    RanksByID(s', rank);
    LinkedKeys(s);
    forall x | x in s'.targets ensures HashIs(h, s', RankByID(s', rank), x, s'.targets[x].hash) {
      BuiltHash(h, s, source, rank, x);
    }
    ReadableIsReady(s');
    forall x | x in s'.targets ensures Right(h, s', x) && Typed(s', x) {
      FullIsRight(h, s', RankByID(s', rank), x);
      RightIsTyped(h, s', x);
    }
  }

  lemma ReadableIsReady(s: State)
    requires Readable(s)
    ensures Ready(s)
  {
    hide NamesConsistent, Complete;
  }

  ghost predicate RootsMarked(source: Source) {
    forall n | n in source :: source[n].root <==> CanBeRoot(source[n].target.ruleType) && forall m | m in source ::
        n !in source[m].target.deps
  }

  lemma BuiltRoot(s: State, source: Source, x: nat)
    requires Added(s, source, source.Keys) && RootsMarked(source) && x in s.targets
    ensures x in Linked(s).targets && RootAt(Linked(s), x)
  {
    LinkedTarget(s, x);
    LinkedKeys(s);
    var n := s.idToName[x];
    assert Stores(s, s.targets[x], source[n]);
    hide Linked;
    var rdeps := Linked(s).targets[x].reverseDeps;
    if m :| m in source && n in source[m].target.deps {
      var i := s.nameToID[m];
      assert Stores(s, s.targets[i], source[m]);
      assert s.nameToID[n] in DepIDs(s, source[m].target.deps);
      assert i in rdeps;
    }
    forall i | i in rdeps ensures exists m :: m in source && n in source[m].target.deps {
      var m := s.idToName[i];
      assert Stores(s, s.targets[i], source[m]);
      var d :| d in source[m].target.deps && s.nameToID[d] == x;
      assert m in source && n in source[m].target.deps;
    }
  }

  lemma BuiltRoots(s: State, source: Source)
    requires Added(s, source, source.Keys) && RootsMarked(source)
    ensures RootsExact(Linked(s))
  {
    hide Linked, Added, RootsMarked, RootAt;
    LinkedKeys(s);
    forall x | x in s.targets ensures RootAt(Linked(s), x) {
      BuiltRoot(s, source, x);
    }
  }

  /** Builds the stored graph: names and IDs consistent, reverse dependencies
      the exact transpose, the content the source's, and, when the source is
      fully hashed, nothing to recompute. */
  method OptimizeGraph(source: Source) returns (g: OptimizedGraph)
    requires NamedByKey(source) && ClosedSource(source)
    ensures fresh(g) && fresh(g.OptimizedTargets.Values) && g.Valid()
    ensures ContentOf(g.Abs()) == SourceContent(source)
    ensures RootsMarked(source) ==> RootsExact(g.Abs())
    ensures forall h: Digest | FullyHashed(h, source) :: Good(h, g.Abs(), {})
  {
    hide Added, Linked, ContentOf, SourceContent, RootsExact, RootsMarked, FullyHashed, Good, NamesConsistent,
      RuleTypesConsistent, Transposed;
    g := new OptimizedGraph();
    AddAll(g, source);
    ghost var s := g.Abs();
    AddedUnlinked(s, source);
    AddReverseDeps(g);
    LinkedIs(s);
    BuiltNames(s, source);
    BuiltRuleTypes(s, source);
    BuiltEdges(s, source);
    BuiltContent(s, source);
    if RootsMarked(source) {
      BuiltRoots(s, source);
    }
    forall h: Digest | FullyHashed(h, source) ensures Good(h, g.Abs(), {}) {
      BuiltGood(h, s, source);
    }
  }

  lemma AddedUnlinked(s: State, source: Source)
    requires Added(s, source, source.Keys)
    ensures forall id | id in s.targets :: s.targets[id].reverseDeps == {}
  {
    forall id | id in s.targets ensures s.targets[id].reverseDeps == {} {
      assert Stores(s, s.targets[id], source[s.idToName[id]]);
    }
  }

  lemma LinkedIs(s: State)
    ensures Linked(s) == s.(targets := WithEdges(s.targets, EdgesOf(s.targets, s.targets.Keys)))
  {
  }
}
