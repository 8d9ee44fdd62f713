/** When the incremental graph's root marks stay exact. */
module ItgRoots {
  import opened Wrappers
  import opened ByteStrings
  import opened ItgState
  import opened ItgUpdate

  ghost predicate RootAt(s: State, x: nat)
    requires x in s.targets
  {
    s.targets[x].root <==>
    s.targets[x].reverseDeps == {} && s.TypeOf(x) != Ascii("source file") && s.TypeOf(x) != Ascii("package group")
  }

  /** The marked targets are the buildable ones that nothing depends on. */
  ghost predicate RootsExact(s: State) {
    forall x | x in s.targets :: RootAt(s, x)
  }

  lemma InvalidationKeepsRoots(s: State, ids: set<nat>)
    ensures RootsExact(Invalidated(s, ids)) <==> RootsExact(s)
  {
    hide RootAt, Cleared;
    forall x | x in s.targets ensures RootAt(Invalidated(s, ids), x) <==> RootAt(s, x) {
      InvalidatedRoot(s, ids, x);
    }
  }

  lemma InvalidatedRoot(s: State, ids: set<nat>, x: nat)
    requires x in s.targets
    ensures RootAt(Invalidated(s, ids), x) <==> RootAt(s, x)
  {
    hide Cleared;
    InvalidatedKeeps(s, ids, x);
  }

  lemma RemovalRoot(s: State, id: nat, x: nat)
    requires Transposed(s.targets) && RootsExact(s) && id in s.targets && x in s.targets && x != id
    ensures RootAt(WithoutTarget(s, id), x)
  {
    assert RootAt(s, x);
  }

  /** Removing a target keeps the root marks exact. */
  lemma RemovalKeepsRoots(s: State, id: nat)
    requires Transposed(s.targets) && RootsExact(s) && id in s.targets
    ensures RootsExact(Removed(s, id))
  {
    hide RootAt, Unlinked, Transposed, RootsExact, Cleared, Invalidated;
    var s' := WithoutTarget(s, id);
    forall x | x in s'.targets ensures RootAt(s', x) {
      RemovalRoot(s, id, x);
    }
    assert RootsExact(s') by {
      AllRootsExact(s');
    }
    InvalidationKeepsRoots(s', s.targets[id].reverseDeps);
  }

  lemma AllRootsExact(s: State)
    requires forall x | x in s.targets :: RootAt(s, x)
    ensures RootsExact(s)
  {
  }

  /** What an upsert must not change about a stored target nothing depends on. */
  ghost predicate RootSettled(s: State, t: NewTarget)
    requires Known(s, t.deps)
  {
    var id := IDFor(s, t.name);
    id !in s.targets || Stored(s, t).reverseDeps != {} || (CanBeRoot(s.TypeOf(id)) <==> CanBeRoot(t.ruleType))
  }

  lemma UpsertedRoot(s: State, t: NewTarget)
    requires NamesConsistent(s) && Transposed(s.targets) && RootsExact(s) && Known(s, t.deps)
    ensures var s', id := WithTarget(s, t), IDFor(s, t.name);
      id in s'.targets && (RootAt(s', id) <==> RootSettled(s, t))
  {
    hide NamesConsistent, DepIDs, RootSettled;
    UpsertedPart(s, t);
    var s', id := WithTarget(s, t), IDFor(s, t.name);
    StoredRoot(s, t);
    RootBySettling(s, t);
  }

  lemma StoredRoot(s: State, t: NewTarget)
    requires NamesConsistent(s) && Transposed(s.targets) && RootsExact(s) && Known(s, t.deps)
    ensures var id := IDFor(s, t.name);
      Stored(s, t).root <==>
      Stored(s, t).reverseDeps == {} && CanBeRoot(if id in s.targets then s.TypeOf(id) else t.ruleType)
  {
    hide NamesConsistent, IDFor, DepIDs;
    var id := IDFor(s, t.name);
    if id in s.targets {
      assert RootAt(s, id);
    }
  }

  lemma RootBySettling(s: State, t: NewTarget)
    requires Known(s, t.deps)
    requires var id := IDFor(s, t.name);
      Stored(s, t).root <==>
      Stored(s, t).reverseDeps == {} && CanBeRoot(if id in s.targets then s.TypeOf(id) else t.ruleType)
    ensures RootSettled(s, t) <==> (Stored(s, t).root <==> Stored(s, t).reverseDeps == {} && CanBeRoot(t.ruleType))
  {
    hide Stored, IDFor;
  }

  lemma OtherRoot(s: State, t: NewTarget, x: nat)
    requires NamesConsistent(s) && RuleTypesConsistent(s) && Transposed(s.targets) && RootsExact(s) && Known(s, t.deps)
    requires x in s.targets && x != IDFor(s, t.name)
    ensures x in WithTarget(s, t).targets && RootAt(WithTarget(s, t), x)
  {
    hide NamesConsistent, RuleTypesConsistent, Stored, DepIDs, IDFor;
    UpsertPart(s, t, x);
    assert RootAt(s, x);
  }

  /** An upsert keeps the root marks exact exactly when it does not turn a
      stored target that nothing depends on from buildable to not, or back:
      the mark of a stored target is never revisited. */
  lemma UpsertKeepsRoots(s: State, t: NewTarget)
    requires NamesConsistent(s) && RuleTypesConsistent(s) && Transposed(s.targets) && RootsExact(s) && Known(s, t.deps)
    ensures RootsExact(Upserted(s, t)) <==> RootSettled(s, t)
  {
    hide NamesConsistent, RuleTypesConsistent, RootAt, Stored, WithTarget, IDFor, Transposed, Cleared, Invalidated,
      Known, RootSettled;
    var s', id := WithTarget(s, t), IDFor(s, t.name);
    UpsertTables(s, t);
    UpsertedRoot(s, t);
    forall x | x in s'.targets && x != id ensures RootAt(s', x) {
      OtherRoot(s, t, x);
    }
    InvalidationKeepsRoots(s', Stored(s, t).reverseDeps);
  }

  // ---- An upsert that leaves a wrong mark ----

  const A: Text := [97]
  const LIBRARY := Ascii("go_library")

  /** A graph of one source file that nothing depends on. */
  ghost const LONE_SOURCE :=
    State(map[0 := Target(Some([1]), None, 0, {}, {}, false)], map[A := 0], map[0 := A], 1, map[SOURCE_FILE := 0],
          map[0 := SOURCE_FILE])

  /** The same name, now a rule. */
  const NOW_A_RULE := NewTarget(A, None, Some([2]), LIBRARY, [])

  /** The source file becomes a rule that nothing depends on and that could be a
      root, and stays unmarked. */
  lemma LateRuleStaysUnmarked()
    ensures NamesConsistent(LONE_SOURCE) && RuleTypesConsistent(LONE_SOURCE) && Transposed(LONE_SOURCE.targets)
    ensures RootsExact(LONE_SOURCE)
    ensures FromQuery(NOW_A_RULE) && Known(LONE_SOURCE, NOW_A_RULE.deps)
    ensures var s := Upserted(LONE_SOURCE, NOW_A_RULE);
      && 0 in s.targets && s.targets[0].reverseDeps == {} && CanBeRoot(s.TypeOf(0)) && !s.targets[0].root
      && !RootsExact(s)
  {
    assert |LIBRARY| == 10 && |SOURCE_FILE| == 11 && |PACKAGE_GROUP| == 13 && |GENERATED_FILE| == 14;
    var s, s' := LONE_SOURCE, WithTarget(LONE_SOURCE, NOW_A_RULE);
    assert s'.targets[0] == Target(None, Some([2]), 1, {}, {}, false) && s'.ruleTypes[1] == LIBRARY;
    InvalidatedKeeps(s', {}, 0);
    assert !RootAt(Upserted(s, NOW_A_RULE), 0);
  }
}
