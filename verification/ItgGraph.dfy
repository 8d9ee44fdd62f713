/** The incremental graph as it is stored: mutable targets behind two name
    tables, edited in place and tied to the graph's value. */
module ItgGraph {
  import opened Wrappers
  import opened ByteStrings
  import opened ItgState
  import opened ItgUpdate

  /** The members of a set, in whatever order a loop over it meets them. */
  method ListOf(ids: set<nat>) returns (list: seq<nat>)
    ensures forall i :: i in list <==> i in ids
  {
    list := [];
    var left := ids;
    while left != {}
      invariant left <= ids
      invariant forall i :: i in list <==> i in ids && i !in left
      decreases left
    {
      var i :| i in left;
      list := list + [i];
      left := left - {i};
    }
  }

  class OptimizedTarget {
    const ID: nat
    var Hash: Option<Text>
    var HashWithoutDeps: Option<Text>
    var RuleType: nat
    var Deps: set<nat>
    var ReverseDeps: set<nat>
    var Root: bool

    constructor (id: nat, t: Target)
      ensures ID == id && Value() == t
    {
      ID, Hash, HashWithoutDeps, RuleType, Deps, ReverseDeps, Root := id, t.hash, t.own, t.ruleType, t.deps,
          t.reverseDeps, t.root;
    }

    function Value(): Target
      reads this
    {
      Target(Hash, HashWithoutDeps, RuleType, Deps, ReverseDeps, Root)
    }
  }

  class OptimizedGraph {
    var OptimizedTargets: map<nat, OptimizedTarget>
    var NextTargetID: nat
    var TargetNameToID: map<Text, nat>
    var TargetIDToString: map<nat, Text>
    var RuleTypeToID: map<Text, nat>
    var RuleTypeIDToString: map<nat, Text>

    constructor ()
      ensures OptimizedTargets == map[] && Keyed() && Abs() == State(map[], map[], map[], 0, map[], map[])
    {
      OptimizedTargets, NextTargetID := map[], 0;
      TargetNameToID, TargetIDToString, RuleTypeToID, RuleTypeIDToString := map[], map[], map[], map[];
    }

    /** Every target is stored under its own ID. */
    ghost predicate Keyed()
      reads this
    {
      forall id | id in OptimizedTargets :: OptimizedTargets[id].ID == id
    }

    ghost function Values(): map<nat, Target>
      reads this, OptimizedTargets.Values
    {
      map id | id in OptimizedTargets :: OptimizedTargets[id].Value()
    }

    /** The graph's value. */
    ghost function Abs(): State
      reads this, OptimizedTargets.Values
    {
      State(Values(), TargetNameToID, TargetIDToString, NextTargetID, RuleTypeToID, RuleTypeIDToString)
    }

    method SetHash(id: nat, hash: Option<Text>)
      requires Keyed() && id in OptimizedTargets
      modifies OptimizedTargets[id]
      ensures Values() == old(Values())[id := old(Values())[id].(hash := hash)]
    {
      OptimizedTargets[id].Hash := hash;
    }

    method DeleteDep(id: nat, dep: nat)
      requires Keyed() && id in OptimizedTargets
      modifies OptimizedTargets[id]
      ensures Values() == old(Values())[id := old(Values())[id].(deps := old(Values())[id].deps - {dep})]
    {
      var target := OptimizedTargets[id];
      target.Deps := target.Deps - {dep};
    }

    method InsertReverseDep(id: nat, dependent: nat)
      requires Keyed() && id in OptimizedTargets
      modifies OptimizedTargets[id]
      ensures Values() == old(Values())[id := Linked(old(Values())[id], dependent)]
    {
      var target := OptimizedTargets[id];
      target.ReverseDeps := target.ReverseDeps + {dependent};
      target.Root := false;
    }

    method DeleteReverseDep(id: nat, dependent: nat)
      requires Keyed() && id in OptimizedTargets
      modifies OptimizedTargets[id]
      ensures Values() == old(Values())[id := Detached(old(Abs()), id, dependent)]
    {
      var target := OptimizedTargets[id];
      target.ReverseDeps := target.ReverseDeps - {dependent};
      if target.ReverseDeps == {} &&
         CanBeRoot(if target.RuleType in RuleTypeIDToString then RuleTypeIDToString[target.RuleType] else []) {
        target.Root := true;
      }
    }

    /** Clears the hashes of `ids` and of everything that depends on them, up to
        targets already cleared. */
    method InvalidateHashRecursively(ids: set<nat>, invalidated: set<nat>) returns (invalidated': set<nat>)
      requires Keyed()
      modifies OptimizedTargets.Values
      ensures Keyed() && Abs() == Invalidated(old(Abs()), ids)
      ensures invalidated' == invalidated + Cleared(old(Values()), ids)
    {
      hide LiveReach, Swept, Cleared, WithoutHashes;
      invalidated' := invalidated;
      var candidates := ListOf(ids);
      var curIdx := 0;
      ghost var gone: set<nat> := {};
      ghost var was := Values();
      SweptStart(was, ids, candidates);
      NothingCleared(was);
      while curIdx < |candidates|
        invariant 0 <= curIdx <= |candidates|
        invariant Keyed() && OptimizedTargets == old(OptimizedTargets)
        invariant Swept(was, ids, gone, candidates, curIdx)
        invariant Values() == WithoutHashes(was, gone) && invalidated' == invalidated + gone
        decreases was.Keys - gone, |candidates| - curIdx
      {
        var targetID := candidates[curIdx];
        WithoutHashAt(was, gone, targetID);
        if targetID !in OptimizedTargets || OptimizedTargets[targetID].Hash.None? {
          SweptSkip(was, ids, gone, candidates, curIdx);
          curIdx := curIdx + 1;
        } else {
          var more := ListOf(OptimizedTargets[targetID].ReverseDeps);
          SweptClear(was, ids, gone, candidates, curIdx, more);
          ClearingOne(was, gone, targetID);
          SetHash(targetID, None);
          invalidated' := invalidated' + {targetID};
          gone := gone + {targetID};
          candidates := candidates + more;
          curIdx := curIdx + 1;
        }
      }
      SweptIsCleared(was, ids, gone, candidates);
    }

    /** Removing, first part: nothing depends on `id` any more. */
    method DetachDependents(id: nat) returns (ok: bool)
      requires Keyed() && id in OptimizedTargets
      modifies OptimizedTargets.Values
      ensures ok <==> old(Values())[id].reverseDeps <= OptimizedTargets.Keys
      ensures ok ==> Values() == WithoutDep(old(Values()), old(Values())[id].reverseDeps, id)
    {
      ghost var was := Values();
      var target := OptimizedTargets[id];
      var left := target.ReverseDeps;
      while left != {}
        invariant left <= was[id].reverseDeps
        invariant was[id].reverseDeps - left <= OptimizedTargets.Keys
        invariant unchanged(this) && Values() == WithoutDep(was, was[id].reverseDeps - left, id)
        decreases left
      {
        var r :| r in left;
        if r !in OptimizedTargets {
          return false;
        }
        WithoutOneMoreDep(was, was[id].reverseDeps - left, id, r);
        DeleteDep(r, id);
        assert was[id].reverseDeps - left + {r} == was[id].reverseDeps - (left - {r});
        left := left - {r};
      }
      assert was[id].reverseDeps - {} == was[id].reverseDeps;
      ok := true;
    }

    /** Removing, second part: `id` is no dependent any more. */
    method DetachDeps(id: nat) returns (ok: bool)
      requires Keyed() && id in OptimizedTargets
      modifies OptimizedTargets.Values
      ensures ok <==> old(Values())[id].deps <= OptimizedTargets.Keys
      ensures ok ==> Values() == WithoutReverseDep(old(Abs()), old(Values())[id].deps, id)
    {
      ghost var was := Abs();
      var target := OptimizedTargets[id];
      var left := target.Deps;
      ghost var all := left;
      while left != {}
        invariant left <= all
        invariant all - left <= OptimizedTargets.Keys
        invariant unchanged(this) && Values() == WithoutReverseDep(was, all - left, id)
        decreases left
      {
        var d :| d in left;
        if d !in OptimizedTargets {
          return false;
        }
        WithoutOneMoreReverseDep(was, all - left, id, d);
        DeleteReverseDep(d, id);
        assert all - left + {d} == all - (left - {d});
        left := left - {d};
      }
      assert all - {} == all;
      ok := true;
    }

    method Forget(id: nat)
      requires Keyed()
      modifies this
      ensures Keyed() && OptimizedTargets == old(OptimizedTargets) - {id}
      ensures var s := old(Abs());
        Abs() == s.(targets := s.targets - {id}, nameToID := s.nameToID - {s.Name(id)}, idToName := s.idToName - {id})
    {
      OptimizedTargets := OptimizedTargets - {id};
      TargetNameToID := TargetNameToID - {if id in TargetIDToString then TargetIDToString[id] else []};
      TargetIDToString := TargetIDToString - {id};
    }

    /** Removes a target and every edge to it. */
    method RemoveTarget(id: nat, invalidated: set<nat>) returns (ok: bool, invalidated': set<nat>)
      requires Keyed() && id in OptimizedTargets
      modifies this, OptimizedTargets.Values
      ensures ok <==> Enclosed(old(Values()), id)
      ensures OptimizedTargets.Values <= old(OptimizedTargets.Values)
      ensures ok ==>
        Keyed() && Abs() == Removed(old(Abs()), id) && invalidated' == PendingRemoved(old(Abs()), id, invalidated)
    {
      hide Cleared, Invalidated, WithoutTarget, WithoutDep, WithoutReverseDep;
      ghost var s0 := Abs();
      var target := OptimizedTargets[id];
      invalidated' := invalidated;
      ok := DetachDependents(id);
      if !ok {
        return;
      }
      ghost var s1 := Abs();
      DetachedDependents(s0, id);
      ok := DetachDeps(id);
      if !ok {
        return;
      }
      DetachedAll(s0, s1, id);
      Forget(id);
      invalidated' := invalidated' - {id};
      invalidated' := InvalidateHashRecursively(target.ReverseDeps, invalidated');
    }

    /** What every update relies on and every successful one keeps. */
    ghost predicate Valid()
      reads this, OptimizedTargets.Values
    {
      Keyed() && NamesConsistent(Abs()) && RuleTypesConsistent(Abs()) && Transposed(Values())
    }

    method GetOrGenerateTargetID(name: Text) returns (id: nat)
      modifies this
      ensures OptimizedTargets == old(OptimizedTargets)
      ensures id == IDFor(old(Abs()), name) && Abs() == WithName(old(Abs()), name)
    {
      if name in TargetNameToID {
        return TargetNameToID[name];
      }
      id := NextTargetID;
      NextTargetID := NextTargetID + 1;
      TargetNameToID := TargetNameToID[name := id];
      TargetIDToString := TargetIDToString[id := name];
    }

    method GetOrGenerateRuleType(ruleType: Text) returns (id: nat)
      modifies this
      ensures OptimizedTargets == old(OptimizedTargets)
      ensures id == RuleTypeFor(old(Abs()), ruleType) && Abs() == WithRuleType(old(Abs()), ruleType)
    {
      if ruleType in RuleTypeToID {
        id := RuleTypeToID[ruleType];
      } else {
        id := |RuleTypeToID|;
        RuleTypeToID := RuleTypeToID[ruleType := id];
      }
      RuleTypeIDToString := RuleTypeIDToString[id := ruleType];
    }

    /** Upserting, first part: every dependency learns of its new dependent. */
    method LinkDeps(deps: seq<Text>, id: nat) returns (ok: bool, depIDs: set<nat>)
      requires Keyed()
      modifies OptimizedTargets.Values
      ensures ok <==> Present(old(Abs()), deps)
      ensures ok ==> depIDs == DepIDs(old(Abs()), deps) && Values() == LinkedAll(old(Values()), depIDs, id)
    {
      ghost var was := Abs();
      depIDs := {};
      assert Values() == LinkedAll(was.targets, {}, id);
      var i := 0;
      while i < |deps|
        invariant 0 <= i <= |deps| && unchanged(this)
        invariant Present(was, deps[..i]) && depIDs == DepIDs(was, deps[..i])
        invariant Values() == LinkedAll(was.targets, depIDs, id)
      {
        var dep := deps[i];
        assert deps[..i + 1] == deps[..i] + [dep];
        if dep !in TargetNameToID {
          return false, depIDs;
        }
        var depID := TargetNameToID[dep];
        if depID !in OptimizedTargets {
          return false, depIDs;
        }
        LinkedOneMore(was.targets, depIDs, id, depID);
        InsertReverseDep(depID, id);
        depIDs := depIDs + {depID};
        i := i + 1;
      }
      assert deps[..i] == deps;
      ok := true;
    }

    /** Upserting, second part: dropped dependencies lose their dependent. */
    method UnlinkDeps(id: nat, depIDs: set<nat>)
      requires Keyed() && id in OptimizedTargets
      modifies OptimizedTargets.Values
      ensures Values() == WithoutReverseDep(old(Abs()), old(Values())[id].deps - depIDs, id)
    {
      ghost var was := Abs();
      var left := OptimizedTargets[id].Deps;
      ghost var all := left;
      while left != {}
        invariant left <= all && unchanged(this)
        invariant Values() == WithoutReverseDep(was, all - left - depIDs, id)
        decreases left
      {
        var d :| d in left;
        if d !in depIDs && d in OptimizedTargets {
          WithoutOneMoreReverseDep(was, all - left - depIDs, id, d);
          DeleteReverseDep(d, id);
          assert all - left - depIDs + {d} == all - (left - {d}) - depIDs;
        } else {
          WithoutAbsentReverseDep(was, all - left - depIDs, all - (left - {d}) - depIDs, id);
        }
        left := left - {d};
      }
      assert all - {} - depIDs == all - depIDs;
    }

    method Overwrite(id: nat, hash: Option<Text>, own: Option<Text>, ruleType: nat, deps: set<nat>)
      requires Keyed() && id in OptimizedTargets
      modifies OptimizedTargets[id]
      ensures Values() == old(Values())[id :=
        old(Values())[id].(hash := hash, own := own, ruleType := ruleType, deps := deps)]
    {
      var target := OptimizedTargets[id];
      target.Hash := hash;
      target.HashWithoutDeps := own;
      target.RuleType := ruleType;
      target.Deps := deps;
    }

    method Insert(id: nat, t: Target)
      requires Keyed()
      modifies `OptimizedTargets
      ensures Keyed() && fresh(OptimizedTargets.Values - old(OptimizedTargets.Values))
      ensures Values() == old(Values())[id := t]
    {
      var target := new OptimizedTarget(id, t);
      OptimizedTargets := OptimizedTargets[id := target];
    }

    /** Upserting, last part: the target itself. */
    method Store(id: nat, t: NewTarget, ruleTypeID: nat, depIDs: set<nat>)
      requires Keyed()
      modifies this, OptimizedTargets.Values
      ensures Keyed() && fresh(OptimizedTargets.Values - old(OptimizedTargets.Values))
      ensures Abs() == old(Abs()).(targets := old(Values())[id := if id in old(Values())
                then old(Values())[id].(hash := t.hash, own := t.own, ruleType := ruleTypeID, deps := depIDs)
                else Target(t.hash, t.own, ruleTypeID, depIDs, {}, CanBeRoot(t.ruleType))])
    {
      if id in OptimizedTargets {
        Overwrite(id, t.hash, t.own, ruleTypeID, depIDs);
      } else {
        Insert(id, Target(t.hash, t.own, ruleTypeID, depIDs, {}, CanBeRoot(t.ruleType)));
      }
    }

    /** Stores the new version of a target and its edges. */
    method Rewrite(t: NewTarget) returns (ok: bool, id: nat)
      requires Valid()
      modifies this, OptimizedTargets.Values
      ensures ok <==> Known(old(Abs()), t.deps)
      ensures Keyed() && fresh(OptimizedTargets.Values - old(OptimizedTargets.Values))
      ensures ok ==> Abs() == WithTarget(old(Abs()), t) && id == IDFor(old(Abs()), t.name) && id in OptimizedTargets
      ensures ok ==> OptimizedTargets[id].ReverseDeps == Stored(old(Abs()), t).reverseDeps
    {
      hide WithTarget, WithName, WithRuleType, Stored, LinkedAll, WithoutReverseDep, NamesConsistent,
        RuleTypesConsistent, Transposed, Known, Present, DepIDs, IDFor, RuleTypeFor;
      ghost var s0 := Abs();
      id := GetOrGenerateTargetID(t.name);
      var ruleTypeID := GetOrGenerateRuleType(t.ruleType);
      PresentIsKnown(s0, t);
      var depIDs;
      ok, depIDs := LinkDeps(t.deps, id);
      if !ok {
        return;
      }
      if id in OptimizedTargets {
        UnlinkDeps(id, depIDs);
      }
      Store(id, t, ruleTypeID, depIDs);
      StoredAll(s0, t);
      StoredIsThere(s0, t);
      assert Abs() == WithTarget(s0, t);
      assert Values()[id] == OptimizedTargets[id].Value();
    }

    /** Inserts or updates a target. It fails exactly when some dependency is not
        stored yet, a new target's dependency on itself included. */
    method UpsertTarget(t: NewTarget, invalidated: set<nat>) returns (ok: bool, invalidated': set<nat>)
      requires Valid()
      modifies this, OptimizedTargets.Values
      ensures ok <==> Known(old(Abs()), t.deps)
      ensures Keyed() && fresh(OptimizedTargets.Values - old(OptimizedTargets.Values))
      ensures ok ==> Abs() == Upserted(old(Abs()), t) && invalidated' == PendingUpserted(old(Abs()), t, invalidated)
    {
      hide Cleared, Invalidated, WithTarget, Stored, NamesConsistent, RuleTypesConsistent, Transposed, Known, IDFor;
      invalidated' := invalidated;
      var id;
      ok, id := Rewrite(t);
      if !ok {
        return;
      }
      invalidated' := InvalidateHashRecursively(OptimizedTargets[id].ReverseDeps, invalidated');
      if t.hash.None? {
        invalidated' := invalidated' + {id};
      }
    }
  }

  ghost function WithName(s: State, name: Text): State {
    var id := IDFor(s, name);
    s.(nameToID := s.nameToID[name := id],
       idToName := if name in s.nameToID then s.idToName else s.idToName[id := name],
       nextID := if name in s.nameToID then s.nextID else s.nextID + 1)
  }

  ghost function WithRuleType(s: State, ruleType: Text): State {
    var id := RuleTypeFor(s, ruleType);
    s.(ruleTypeToID := s.ruleTypeToID[ruleType := id], ruleTypes := s.ruleTypes[id := ruleType])
  }

  /** Every name leads to a stored target. */
  ghost predicate Present(s: State, names: seq<Text>) {
    forall n | n in names :: n in s.nameToID && s.nameToID[n] in s.targets
  }

  ghost function LinkedAll(targets: map<nat, Target>, done: set<nat>, id: nat): map<nat, Target> {
    map x | x in targets :: if x in done then Linked(targets[x], id) else targets[x]
  }

  /** Every edge of `id` leads to a stored target. */
  ghost predicate Enclosed(targets: map<nat, Target>, id: nat)
    requires id in targets
  {
    targets[id].deps <= targets.Keys && targets[id].reverseDeps <= targets.Keys
  }

  ghost function WithoutDep(targets: map<nat, Target>, done: set<nat>, id: nat): map<nat, Target> {
    map x | x in targets :: if x in done then targets[x].(deps := targets[x].deps - {id}) else targets[x]
  }

  ghost function WithoutReverseDep(s: State, done: set<nat>, id: nat): map<nat, Target> {
    map x | x in s.targets :: if x in done then Detached(s, x, id) else s.targets[x]
  }

  lemma WithoutOneMoreDep(targets: map<nat, Target>, done: set<nat>, id: nat, x: nat)
    requires x in targets && x !in done
    ensures var ts := WithoutDep(targets, done, id);
      ts[x := ts[x].(deps := ts[x].deps - {id})] == WithoutDep(targets, done + {x}, id)
  {
  }

  lemma WithoutOneMoreReverseDep(s: State, done: set<nat>, id: nat, x: nat)
    requires x in s.targets && x !in done
    ensures var s' := s.(targets := WithoutReverseDep(s, done, id));
      s'.targets[x := Detached(s', x, id)] == WithoutReverseDep(s, done + {x}, id)
  {
  }

  lemma DetachedDependents(s: State, id: nat)
    requires id in s.targets
    ensures var ts := WithoutDep(s.targets, s.targets[id].reverseDeps, id);
      && ts.Keys == s.targets.Keys && s.targets[id].deps - {id} <= ts[id].deps <= s.targets[id].deps
      && ts[id].reverseDeps == s.targets[id].reverseDeps
  {
  }

  lemma DetachedAll(s: State, s1: State, id: nat)
    requires id in s.targets && s1 == s.(targets := WithoutDep(s.targets, s.targets[id].reverseDeps, id))
    ensures id in s1.targets
    ensures var ts := WithoutReverseDep(s1, s1.targets[id].deps, id);
      && id in ts && ts[id].reverseDeps == s.targets[id].reverseDeps
      && WithoutTarget(s, id) == s.(targets := ts - {id}, nameToID := s.nameToID - {s.Name(id)}, idToName :=
          s.idToName - {id})
  {
  }

  lemma WithoutAbsentReverseDep(s: State, done: set<nat>, done': set<nat>, id: nat)
    requires forall x | x in s.targets :: x in done <==> x in done'
    ensures WithoutReverseDep(s, done, id) == WithoutReverseDep(s, done', id)
  {
  }

  lemma LinkedOneMore(targets: map<nat, Target>, done: set<nat>, id: nat, x: nat)
    requires x in targets
    ensures var ts := LinkedAll(targets, done, id);
      ts[x := Linked(ts[x], id)] == LinkedAll(targets, done + {x}, id)
  {
  }

  ghost function Registered(s: State, t: NewTarget): State {
    WithRuleType(WithName(s, t.name), t.ruleType)
  }

  lemma PresentIsKnown(s: State, t: NewTarget)
    requires NamesConsistent(s)
    ensures Present(Registered(s, t), t.deps) <==> Known(s, t.deps)
    ensures Known(s, t.deps) ==> DepIDs(Registered(s, t), t.deps) == DepIDs(s, t.deps)
    ensures RuleTypeFor(WithName(s, t.name), t.ruleType) == RuleTypeFor(s, t.ruleType)
  {
    if Known(s, t.deps) {
      assert forall d | d in t.deps :: Registered(s, t).nameToID[d] == s.nameToID[d];
    }
  }

  /** The value after all parts of an upsert but the invalidation. */
  ghost function Assembled(s: State, t: NewTarget): State
    requires Known(s, t.deps)
  {
    var id, now, rt := IDFor(s, t.name), DepIDs(s, t.deps), RuleTypeFor(s, t.ruleType);
    var s1 := Registered(s, t);
    var s2 := s1.(targets := LinkedAll(s1.targets, now, id));
    var s3 := if id in s2.targets then s2.(targets := WithoutReverseDep(s2, s2.targets[id].deps - now, id)) else s2;
    s3.(targets := s3.targets[id := if id in s3.targets
        then s3.targets[id].(hash := t.hash, own := t.own, ruleType := rt, deps := now)
        else Target(t.hash, t.own, rt, now, {}, CanBeRoot(t.ruleType))])
  }

  lemma RegisteredTypes(s: State, t: NewTarget, x: nat)
    requires RuleTypesConsistent(s) && x in s.targets
    ensures Registered(s, t).TypeOf(x) == s.TypeOf(x)
  {
  }

  lemma AssembledAt(s: State, t: NewTarget, x: nat)
    requires RuleTypesConsistent(s) && Known(s, t.deps) && x in s.targets
    ensures x in Assembled(s, t).targets && x in WithTarget(s, t).targets
    ensures Assembled(s, t).targets[x] == WithTarget(s, t).targets[x]
  {
    RegisteredTypes(s, t, x);
    hide RuleTypesConsistent, IDFor, RuleTypeFor, DepIDs, Known;
  }

  lemma AssembledNew(s: State, t: NewTarget)
    requires Known(s, t.deps) && IDFor(s, t.name) !in s.targets
    ensures IDFor(s, t.name) in Assembled(s, t).targets && IDFor(s, t.name) in WithTarget(s, t).targets
    ensures Assembled(s, t).targets[IDFor(s, t.name)] == WithTarget(s, t).targets[IDFor(s, t.name)]
  {
    hide IDFor, RuleTypeFor, DepIDs, Known;
  }

  lemma AssembledKeys(s: State, t: NewTarget)
    requires Known(s, t.deps)
    ensures Assembled(s, t).targets.Keys == WithTarget(s, t).targets.Keys == s.targets.Keys + {IDFor(s, t.name)}
  {
    hide Linked, Detached, Relinked, Stored, DepIDs, Known, RuleTypeFor, IDFor;
  }

  lemma AssembledTables(s: State, t: NewTarget)
    requires NamesConsistent(s) && Known(s, t.deps)
    ensures Assembled(s, t).(targets := WithTarget(s, t).targets) == WithTarget(s, t)
  {
    hide LinkedAll, WithoutReverseDep, Relinked, Stored, DepIDs, Known, Inverse;
    if t.name in s.nameToID {
      KnownName(s, t.name);
    }
  }

  lemma KnownName(s: State, name: Text)
    requires NamesConsistent(s) && name in s.nameToID
    ensures s.idToName[s.nameToID[name] := name] == s.idToName
  {
  }

  lemma StoredAll(s: State, t: NewTarget)
    requires NamesConsistent(s) && RuleTypesConsistent(s) && Known(s, t.deps)
    ensures Assembled(s, t) == WithTarget(s, t)
  {
    hide *;
    AssembledKeys(s, t);
    AssembledTables(s, t);
    var ts, ts' := Assembled(s, t).targets, WithTarget(s, t).targets;
    forall x | x in ts ensures ts[x] == ts'[x] {
      if x in s.targets {
        AssembledAt(s, t, x);
      } else {
        AssembledNew(s, t);
      }
    }
    assert ts == ts';
  }

  lemma StoredIsThere(s: State, t: NewTarget)
    requires Known(s, t.deps)
    ensures var id := IDFor(s, t.name);
      id in WithTarget(s, t).targets && WithTarget(s, t).targets[id].reverseDeps == Stored(s, t).reverseDeps
  {
    hide Stored, Relinked, IDFor, DepIDs;
  }

  // ---- The invalidation worklist ----

  /** `gone` was reached and cleared; what it still has to reach is queued. */
  ghost predicate Swept(was: map<nat, Target>, ids: set<nat>, gone: set<nat>, candidates: seq<nat>, curIdx: nat) {
    && curIdx <= |candidates| && gone <= Cleared(was, ids)
    && (forall i | i in ids && i in was && was[i].hash.Some? :: i in gone || i in candidates[curIdx..])
    && (forall y, r | y in gone && r in was[y].reverseDeps && r in was && was[r].hash.Some? ::
          r in gone || r in candidates[curIdx..])
    && (forall i | i in candidates && i in was && was[i].hash.Some? :: i in Cleared(was, ids))
  }

  lemma SweptStart(was: map<nat, Target>, ids: set<nat>, candidates: seq<nat>)
    requires forall i :: i in candidates <==> i in ids
    ensures Swept(was, ids, {}, candidates, 0)
  {
    hide Cleared;
    assert candidates[0..] == candidates;
    forall i | i in candidates && i in was && was[i].hash.Some? ensures i in Cleared(was, ids) {
      ClearedStarts(was, ids, i);
    }
  }

  lemma SweptSkip(was: map<nat, Target>, ids: set<nat>, gone: set<nat>, candidates: seq<nat>, curIdx: nat)
    requires Swept(was, ids, gone, candidates, curIdx) && curIdx < |candidates|
    requires var x := candidates[curIdx]; x !in was || was[x].hash.None? || x in gone
    ensures Swept(was, ids, gone, candidates, curIdx + 1)
  {
    hide Cleared;
    assert candidates[curIdx..] == [candidates[curIdx]] + candidates[curIdx + 1..];
  }

  lemma SweptClear(was: map<nat, Target>, ids: set<nat>, gone: set<nat>, candidates: seq<nat>, curIdx: nat,
                   more: seq<nat>)
    requires Swept(was, ids, gone, candidates, curIdx) && curIdx < |candidates|
    requires var x := candidates[curIdx];
      x in was && was[x].hash.Some? && forall i :: i in more <==> i in was[x].reverseDeps
    ensures Swept(was, ids, gone + {candidates[curIdx]}, candidates + more, curIdx + 1)
  {
    hide LiveReach, Cleared;
    var x := candidates[curIdx];
    assert candidates[curIdx..] == [x] + candidates[curIdx + 1..];
    assert (candidates + more)[curIdx + 1..] == candidates[curIdx + 1..] + more;
    assert x in candidates;
    forall i | i in more && i in was && was[i].hash.Some? ensures i in Cleared(was, ids) {
      ClearedFollows(was, ids, x, i);
    }
    ClearedInside(was, ids);
  }

  lemma SweptIsCleared(was: map<nat, Target>, ids: set<nat>, gone: set<nat>, candidates: seq<nat>)
    requires Swept(was, ids, gone, candidates, |candidates|)
    ensures gone == Cleared(was, ids)
  {
    forall x | x in Cleared(was, ids) ensures x in gone {
      var n: nat :| LiveReach(was, ids, x, n);
      ReachStaysInside(was, ids, gone, x, n);
    }
  }

  lemma NothingCleared(was: map<nat, Target>)
    ensures WithoutHashes(was, {}) == was
  {
  }

  lemma WithoutHashAt(was: map<nat, Target>, gone: set<nat>, x: nat)
    ensures x in WithoutHashes(was, gone) <==> x in was
    ensures x in was ==> WithoutHashes(was, gone)[x] == was[x].(hash := if x in gone then None else was[x].hash)
  {
  }

  lemma ClearingOne(was: map<nat, Target>, gone: set<nat>, x: nat)
    requires x in was
    ensures WithoutHashes(was, gone)[x := WithoutHashes(was, gone)[x].(hash := None)] == WithoutHashes(was, gone + {x})
  {
  }
}
