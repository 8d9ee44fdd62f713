/** Removing and upserting a target, as functions on the graph's value, and
    what they keep. */
module ItgUpdate {
  import opened Wrappers
  import opened ByteStrings
  import FiniteSets
  import opened Merkle
  import opened ItgState

  // ---- Single edges ----

  /** `t` once `dependent` depends on it. */
  ghost function Linked(t: Target, dependent: nat): Target {
    t.(reverseDeps := t.reverseDeps + {dependent}, root := false)
  }

  /** Target `id` once `dependent` no longer depends on it. */
  ghost function Detached(s: State, id: nat, dependent: nat): Target
    requires id in s.targets
  {
    var t := s.targets[id];
    var left := t.reverseDeps - {dependent};
    t.(reverseDeps := left, root := t.root || (left == {} && CanBeRoot(s.TypeOf(id))))
  }

  // ---- Removing a target ----

  ghost function Unlinked(s: State, id: nat, x: nat): Target
    requires id in s.targets && x in s.targets
  {
    var t := if x in s.targets[id].deps then Detached(s, x, id) else s.targets[x];
    t.(deps := if x in s.targets[id].reverseDeps then t.deps - {id} else t.deps)
  }

  ghost function WithoutTarget(s: State, id: nat): State
    requires id in s.targets
  {
    s.(targets := map x | x in s.targets && x != id :: Unlinked(s, id, x),
       nameToID := s.nameToID - {s.Name(id)},
       idToName := s.idToName - {id})
  }

  ghost function Removed(s: State, id: nat): State
    requires id in s.targets
  {
    Invalidated(WithoutTarget(s, id), s.targets[id].reverseDeps)
  }

  ghost function PendingRemoved(s: State, id: nat, pending: set<nat>): set<nat>
    requires id in s.targets
  {
    pending - {id} + Cleared(WithoutTarget(s, id).targets, s.targets[id].reverseDeps)
  }

  // ---- Inserting or updating a target ----

  ghost function IDFor(s: State, name: Text): nat {
    if name in s.nameToID then s.nameToID[name] else s.nextID
  }

  ghost function RuleTypeFor(s: State, ruleType: Text): nat {
    if ruleType in s.ruleTypeToID then s.ruleTypeToID[ruleType] else |s.ruleTypeToID|
  }

  /** Every dependency is already stored under its name. */
  ghost predicate Known(s: State, deps: seq<Text>) {
    forall d | d in deps :: d in s.nameToID
  }

  ghost function DepIDs(s: State, deps: seq<Text>): (ids: set<nat>)
    requires Known(s, deps)
  {
    set d | d in deps :: s.nameToID[d]
  }

  /** `x`'s edges and root mark once `id` depends on `now` instead of `before`. */
  ghost function Relinked(s: State, id: nat, before: set<nat>, now: set<nat>, x: nat): Target
    requires x in s.targets
  {
    if x in now then Linked(s.targets[x], id)
    else if x in before then Detached(s, x, id)
    else s.targets[x]
  }

  ghost function OldDeps(s: State, id: nat): set<nat> {
    if id in s.targets then s.targets[id].deps else {}
  }

  ghost function Stored(s: State, t: NewTarget): Target
    requires Known(s, t.deps)
  {
    var id := IDFor(s, t.name);
    var now := DepIDs(s, t.deps);
    if id in s.targets
    then Relinked(s, id, OldDeps(s, id), now, id).(hash := t.hash, own := t.own, ruleType := RuleTypeFor(s, t.ruleType),
                                                   deps := now)
    else Target(t.hash, t.own, RuleTypeFor(s, t.ruleType), now, {}, CanBeRoot(t.ruleType))
  }

  ghost function WithTarget(s: State, t: NewTarget): State
    requires Known(s, t.deps)
  {
    var id := IDFor(s, t.name);
    var rt := RuleTypeFor(s, t.ruleType);
    State(
      map x | x in s.targets.Keys + {id} :: if x == id then Stored(s, t)
                                            else Relinked(s, id, OldDeps(s, id), DepIDs(s, t.deps), x),
      s.nameToID[t.name := id], s.idToName[id := t.name],
      if t.name in s.nameToID then s.nextID else s.nextID + 1,
      s.ruleTypeToID[t.ruleType := rt], s.ruleTypes[rt := t.ruleType])
  }

  ghost function Upserted(s: State, t: NewTarget): State
    requires Known(s, t.deps)
  {
    Invalidated(WithTarget(s, t), Stored(s, t).reverseDeps)
  }

  /** The upserted target itself waits for a hash unless it came with one. */
  ghost function Awaited(s: State, t: NewTarget): set<nat> {
    if t.hash.None? then {IDFor(s, t.name)} else {}
  }

  ghost function PendingUpserted(s: State, t: NewTarget, pending: set<nat>): set<nat>
    requires Known(s, t.deps)
  {
    pending + Awaited(s, t) + Cleared(WithTarget(s, t).targets, Stored(s, t).reverseDeps)
  }

  /** What the query and computeAvailableHashes give every target: leaves have
      a hash, rules a hash of their own, generated files their rule. */
  ghost predicate FromQuery(t: NewTarget) {
    && (t.hash.Some? <==> IsLeafType(t.ruleType))
    && (IsLeafType(t.ruleType) ==> t.deps == [])
    && (t.ruleType == GENERATED_FILE ==> |t.deps| == 1)
    && (!IsLeafType(t.ruleType) && t.ruleType != GENERATED_FILE ==> t.own.Some?)
  }

  // ---- Removal keeps the graph good ----

  lemma RemovalNames(s: State, id: nat)
    requires id in s.targets && NamesConsistent(s)
    ensures NamesConsistent(WithoutTarget(s, id))
  {
    hide Unlinked;
  }

  lemma RemovalRuleTypes(s: State, id: nat)
    requires id in s.targets && RuleTypesConsistent(s)
    ensures RuleTypesConsistent(WithoutTarget(s, id))
  {
  }

  /** What a removal leaves of another target. */
  lemma RemovalPart(s: State, id: nat, x: nat)
    requires id in s.targets && x in s.targets && x != id && Transposed(s.targets)
    ensures var t' := WithoutTarget(s, id).targets[x];
      && t'.deps == s.targets[x].deps - {id} && t'.reverseDeps == s.targets[x].reverseDeps - {id}
      && t'.own == s.targets[x].own && t'.hash == s.targets[x].hash && t'.ruleType == s.targets[x].ruleType
  {
  }

  lemma RemovalEdges(s: State, id: nat)
    requires id in s.targets && Transposed(s.targets)
    ensures Transposed(WithoutTarget(s, id).targets)
  {
    var targets, targets' := s.targets, WithoutTarget(s, id).targets;
    forall x | x in targets'
      ensures targets'[x].deps == targets[x].deps - {id} && targets'[x].reverseDeps == targets[x].reverseDeps - {id}
    {
      RemovalPart(s, id, x);
    }
    assert targets'.Keys == targets.Keys - {id};
    hide WithoutTarget, Unlinked;
    forall a, b | a in targets' && b in targets'[a].deps ensures b in targets' && a in targets'[b].reverseDeps {
      assert b in targets[a].deps;
    }
    forall a, b | b in targets' && a in targets'[b].reverseDeps ensures a in targets' && b in targets'[a].deps {
      assert a in targets[b].reverseDeps;
    }
  }

  lemma RemovalTyped(s: State, id: nat, x: nat)
    requires id in s.targets && x in s.targets && x != id && Typed(s, x)
    ensures Typed(WithoutTarget(s, id), x)
  {
    var deps := s.targets[x].deps;
    FiniteSets.SubsetSize(deps - {id}, deps);
  }

  /** Only the removed target's dependents lose a right hash. */
  lemma NotADependency(s: State, id: nat, x: nat)
    requires id in s.targets && x in s.targets && Transposed(s.targets) && x !in s.targets[id].reverseDeps
    ensures id !in s.targets[x].deps
  {
  }

  lemma RemovalNameTable(s: State, id: nat)
    requires id in s.targets && NamesConsistent(s)
    ensures WithoutTarget(s, id).idToName == s.idToName - {id} && s.idToName.Keys == s.targets.Keys
  {
  }

  lemma RemovalRight(h: Digest, s: State, id: nat, x: nat)
    requires id in s.targets && x in s.targets && x != id && NamesConsistent(s) && Transposed(s.targets)
    requires x !in s.targets[id].reverseDeps && Right(h, s, x)
    ensures Right(h, WithoutTarget(s, id), x)
  {
    hide Right, Transposed, NamesConsistent, Unlinked;
    var s' := WithoutTarget(s, id);
    assert id !in s.targets[x].deps by {
      NotADependency(s, id, x);
    }
    EdgesInside(s.targets, x);
    RemovalPart(s, id, x);
    RemovalNameTable(s, id);
    assert s.targets[x].deps - {id} == s.targets[x].deps;
    forall d | d in s.targets[x].deps
      ensures d in s.targets && d in s'.targets && s'.Name(d) == s.Name(d) && s'.targets[d].hash == s.targets[d].hash
    {
      RemovalPart(s, id, d);
    }
    UntouchedStaysRight(h, s, s', x);
  }

  lemma RemovalPending(s: State, id: nat, pending: set<nat>)
    requires id in s.targets && pending <= s.targets.Keys
    requires forall x | x in s.targets && s.targets[x].hash.None? :: x in pending
    ensures var s' := WithoutTarget(s, id);
      && s'.targets.Keys == s.targets.Keys - {id} && pending - {id} <= s'.targets.Keys
      && (forall x | x in s'.targets :: s'.targets[x].hash == s.targets[x].hash)
      && forall x | x in s'.targets && s'.targets[x].hash.None? :: x in pending - {id}
  {
  }

  lemma RemovalIsRepairable(h: Digest, s: State, id: nat, pending: set<nat>)
    requires Good(h, s, pending) && id in s.targets
    ensures Repairable(h, WithoutTarget(s, id), s.targets[id].reverseDeps, pending - {id})
    ensures forall x | x in s.targets[id].reverseDeps && x in WithoutTarget(s, id).targets ::
        !IsLeafType(WithoutTarget(s, id).TypeOf(x))
  {
    hide Right, NamesConsistent, RuleTypesConsistent, Transposed, Typed, WithoutTarget;
    var s' := WithoutTarget(s, id);
    RemovalNames(s, id);
    RemovalRuleTypes(s, id);
    RemovalEdges(s, id);
    RemovalPending(s, id, pending);
    forall x | x in s'.targets ensures Typed(s', x) {
      RemovalTyped(s, id, x);
    }
    forall x | x in s'.targets && s'.targets[x].hash.Some? && x !in s.targets[id].reverseDeps ensures Right(h, s', x) {
      assert s.targets[x].hash.Some?;
      RemovalRight(h, s, id, x);
    }
    forall x | x in s.targets[id].reverseDeps && x in s'.targets ensures !IsLeafType(s'.TypeOf(x)) {
      DependentIsNoLeaf(s, id, x);
    }
  }

  lemma DependentIsNoLeaf(s: State, id: nat, x: nat)
    requires Transposed(s.targets) && id in s.targets && x in s.targets[id].reverseDeps && x in s.targets && Typed(s, x)
    requires x != id
    ensures x in WithoutTarget(s, id).targets && !IsLeafType(WithoutTarget(s, id).TypeOf(x))
  {
    assert id in s.targets[x].deps;
  }

  /** Removing a target keeps every kept hash right and puts every cleared one
      on the list to recompute. */
  lemma RemovalKeepsGood(h: Digest, s: State, id: nat, pending: set<nat>)
    requires Good(h, s, pending) && id in s.targets
    ensures Good(h, Removed(s, id), PendingRemoved(s, id, pending))
  {
    RemovalIsRepairable(h, s, id, pending);
    hide Good, Repairable, Cleared;
    InvalidationRestores(h, WithoutTarget(s, id), s.targets[id].reverseDeps, pending - {id});
  }

  // ---- Upserting keeps the graph good ----

  lemma InsertInverse(ids: map<Text, nat>, names: map<nat, Text>, name: Text, id: nat)
    requires Inverse(ids, names)
    requires if name in ids then ids[name] == id else id !in names
    ensures Inverse(ids[name := id], names[id := name])
  {
  }

  lemma KnownNumber(ids: map<Text, nat>, names: map<nat, Text>, name: Text)
    requires Inverse(ids, names)
    ensures name in ids ==> ids[name] in names
  {
  }

  lemma UpsertNames(s: State, t: NewTarget)
    requires NamesConsistent(s) && Known(s, t.deps)
    ensures NamesConsistent(WithTarget(s, t))
  {
    hide WithTarget, Inverse, IDFor, Known, RuleTypeFor;
    UpsertTables(s, t);
    UpsertNameTables(s, t);
    NameInserted(s, t.name);
    assert WithTarget(s, t).idToName.Keys == WithTarget(s, t).targets.Keys;
  }

  /** A name's number is known, or the next one. */
  lemma NameInserted(s: State, name: Text)
    requires NamesConsistent(s)
    ensures Inverse(s.nameToID[name := IDFor(s, name)], s.idToName[IDFor(s, name) := name])
    ensures IDFor(s, name) < if name in s.nameToID then s.nextID else s.nextID + 1
  {
    hide Inverse;
    InsertInverse(s.nameToID, s.idToName, name, IDFor(s, name));
    KnownNumber(s.nameToID, s.idToName, name);
  }

  lemma UpsertNameTables(s: State, t: NewTarget)
    requires Known(s, t.deps)
    ensures WithTarget(s, t).nameToID == s.nameToID[t.name := IDFor(s, t.name)]
    ensures WithTarget(s, t).idToName == s.idToName[IDFor(s, t.name) := t.name]
    ensures WithTarget(s, t).nextID == if t.name in s.nameToID then s.nextID else s.nextID + 1
  {
    hide Stored, Relinked, IDFor, DepIDs, Known;
  }

  lemma UpsertTables(s: State, t: NewTarget)
    requires Known(s, t.deps)
    ensures WithTarget(s, t).targets.Keys == s.targets.Keys + {IDFor(s, t.name)}
    ensures WithTarget(s, t).ruleTypeToID == s.ruleTypeToID[t.ruleType := RuleTypeFor(s, t.ruleType)]
    ensures WithTarget(s, t).ruleTypes == s.ruleTypes[RuleTypeFor(s, t.ruleType) := t.ruleType]
  {
    hide Stored, Relinked, IDFor, DepIDs, Known;
  }

  lemma UpsertedRuleType(s: State, t: NewTarget, x: nat)
    requires RuleTypesConsistent(s) && Known(s, t.deps) && x in WithTarget(s, t).targets
    ensures WithTarget(s, t).targets[x].ruleType in WithTarget(s, t).ruleTypes
  {
    hide Inverse, IDFor, DepIDs;
  }

  lemma TypeCounts(ids: map<Text, nat>, name: Text, id: nat)
    ensures |ids[name := id]| == if name in ids then |ids| else |ids| + 1
  {
    assert ids[name := id].Keys == ids.Keys + {name};
  }

  lemma UpsertRuleTypes(s: State, t: NewTarget)
    requires RuleTypesConsistent(s) && Known(s, t.deps)
    ensures RuleTypesConsistent(WithTarget(s, t))
  {
    var s', rt := WithTarget(s, t), RuleTypeFor(s, t.ruleType);
    hide WithTarget, Known, Inverse;
    InsertInverse(s.ruleTypeToID, s.ruleTypes, t.ruleType, rt);
    UpsertTables(s, t);
    TypeCounts(s.ruleTypeToID, t.ruleType, rt);
    forall x | x in s'.targets ensures s'.targets[x].ruleType in s'.ruleTypes {
      UpsertedRuleType(s, t, x);
    }
  }

  /** How an upsert changes the edges of a stored target. */
  lemma UpsertedEdges(s: State, t: NewTarget, x: nat)
    requires NamesConsistent(s) && Transposed(s.targets) && Known(s, t.deps) && x in s.targets
    ensures x != IDFor(s, t.name) ==> WithTarget(s, t).targets[x].deps == s.targets[x].deps
    ensures WithTarget(s, t).targets[x].reverseDeps ==
            if x in DepIDs(s, t.deps) then s.targets[x].reverseDeps + {IDFor(s, t.name)}
            else s.targets[x].reverseDeps - {IDFor(s, t.name)}
  {
    hide NamesConsistent, DepIDs;
    var id := IDFor(s, t.name);
    hide IDFor;
    if x !in OldDeps(s, id) {
      assert id !in s.targets[x].reverseDeps;
    }
  }

  lemma UpsertedTarget(s: State, t: NewTarget)
    requires NamesConsistent(s) && Transposed(s.targets) && Known(s, t.deps)
    ensures var id, now := IDFor(s, t.name), DepIDs(s, t.deps);
            && WithTarget(s, t).targets.Keys == s.targets.Keys + {id}
            && WithTarget(s, t).targets[id].deps == now && now <= s.targets.Keys
            && (id !in s.targets ==> WithTarget(s, t).targets[id].reverseDeps == {})
            && (forall x | x in s.targets ::
                  s.targets[x].deps <= s.targets.Keys && s.targets[x].reverseDeps <= s.targets.Keys)
  {
    hide Relinked;
  }

  lemma UpsertEdges(s: State, t: NewTarget)
    requires NamesConsistent(s) && Transposed(s.targets) && Known(s, t.deps)
    ensures Transposed(WithTarget(s, t).targets)
  {
    var targets, targets' := s.targets, WithTarget(s, t).targets;
    var id, now := IDFor(s, t.name), DepIDs(s, t.deps);
    UpsertedTarget(s, t);
    forall x | x in s.targets
      ensures x != id ==> targets'[x].deps == s.targets[x].deps
      ensures targets'[x].reverseDeps ==
              if x in now then s.targets[x].reverseDeps + {id} else s.targets[x].reverseDeps - {id}
    {
      UpsertedEdges(s, t, x);
    }
    hide WithTarget, Stored, Relinked, DepIDs, IDFor, NamesConsistent;
    RelinkedEdges(targets, targets', id, now);
  }

  lemma RelinkedEdges(targets: map<nat, Target>, targets': map<nat, Target>, id: nat, now: set<nat>)
    requires Transposed(targets)
    requires targets'.Keys == targets.Keys + {id} && targets'[id].deps == now && now <= targets.Keys
    requires id !in targets ==> targets'[id].reverseDeps == {}
    requires forall x | x in targets && x != id :: targets'[x].deps == targets[x].deps
    requires forall x | x in targets ::
        targets'[x].reverseDeps == if x in now then targets[x].reverseDeps + {id} else targets[x].reverseDeps - {id}
    ensures Transposed(targets')
  {
    forall a, b | a in targets' && b in targets'[a].deps ensures b in targets' && a in targets'[b].reverseDeps {
      if a != id {
        assert b in targets[a].deps;
      }
    }
    forall a, b | b in targets' && a in targets'[b].reverseDeps ensures a in targets' && b in targets'[a].deps {
      assert b in targets;
    }
  }

  /** What an upsert leaves of another target. */
  lemma UpsertPart(s: State, t: NewTarget, x: nat)
    requires NamesConsistent(s) && RuleTypesConsistent(s) && Known(s, t.deps) && x in s.targets && x != IDFor(s, t.name)
    ensures x in WithTarget(s, t).targets
    ensures var t' := WithTarget(s, t).targets[x];
      t'.deps == s.targets[x].deps && t'.own == s.targets[x].own && t'.hash == s.targets[x].hash &&
      t'.ruleType == s.targets[x].ruleType
    ensures WithTarget(s, t).TypeOf(x) == s.TypeOf(x)
    ensures WithTarget(s, t).Name(x) == s.Name(x)
  {
  }

  lemma UpsertedPart(s: State, t: NewTarget)
    requires NamesConsistent(s) && Known(s, t.deps)
    ensures var s', id := WithTarget(s, t), IDFor(s, t.name);
      && id in s'.targets && s'.TypeOf(id) == t.ruleType && s'.Name(id) == t.name
      && s'.targets[id].hash == t.hash && s'.targets[id].own == t.own && s'.targets[id].deps == DepIDs(s, t.deps)
  {
    hide Relinked, NamesConsistent;
  }

  lemma OneDepID(s: State, deps: seq<Text>)
    requires Known(s, deps) && |deps| == 1
    ensures DepIDs(s, deps) == {s.nameToID[deps[0]]}
  {
    assert deps[0] in deps;
  }

  lemma UpsertTyped(s: State, t: NewTarget, x: nat)
    requires NamesConsistent(s) && RuleTypesConsistent(s) && Known(s, t.deps) && FromQuery(t)
    requires x in WithTarget(s, t).targets && (x in s.targets ==> Typed(s, x))
    ensures Typed(WithTarget(s, t), x)
  {
    if x == IDFor(s, t.name) {
      UpsertedPart(s, t);
      if t.ruleType == GENERATED_FILE {
        OneDepID(s, t.deps);
      }
    } else {
      UpsertPart(s, t, x);
    }
    hide Stored, Relinked, NamesConsistent, RuleTypesConsistent;
  }

  /** Only the target's dependents lose a right hash. */
  lemma UpsertRight(h: Digest, s: State, t: NewTarget, x: nat)
    requires NamesConsistent(s) && RuleTypesConsistent(s) && Transposed(s.targets) && Known(s, t.deps)
    requires x in s.targets && x != IDFor(s, t.name) && IDFor(s, t.name) !in s.targets[x].deps
    requires Right(h, s, x)
    ensures x in WithTarget(s, t).targets && Right(h, WithTarget(s, t), x)
  {
    hide Right, Transposed, NamesConsistent, RuleTypesConsistent, WithTarget, IDFor, Known, s.Name, s.TypeOf;
    var s' := WithTarget(s, t);
    UpsertPart(s, t, x);
    EdgesInside(s.targets, x);
    forall d | d in s.targets[x].deps
      ensures d in s.targets && d in s'.targets && s'.Name(d) == s.Name(d) && s'.targets[d].hash == s.targets[d].hash
    {
      UpsertPart(s, t, d);
    }
    UntouchedStaysRight(h, s, s', x);
  }

  lemma NoDepIDs(s: State, deps: seq<Text>)
    requires deps == []
    ensures Known(s, deps) && DepIDs(s, deps) == {}
  {
  }

  lemma LeafIsRight(h: Digest, s: State, id: nat)
    requires id in s.targets && IsLeafType(s.TypeOf(id)) && s.targets[id].hash.Some? && s.targets[id].deps == {}
    ensures Right(h, s, id)
  {
    assert NodeOf(s, id) == Leaf(s.targets[id].hash.value);
  }

  /** A new leaf's hash is its own. */
  lemma UpsertedLeafRight(h: Digest, s: State, t: NewTarget)
    requires NamesConsistent(s) && Known(s, t.deps) && FromQuery(t) && t.hash.Some?
    ensures IDFor(s, t.name) in WithTarget(s, t).targets && Right(h, WithTarget(s, t), IDFor(s, t.name))
  {
    hide WithTarget, IDFor, DepIDs, NamesConsistent, Right, Known;
    UpsertedPart(s, t);
    NoDepIDs(s, t.deps);
    LeafIsRight(h, WithTarget(s, t), IDFor(s, t.name));
  }

  lemma UpsertStaysRight(h: Digest, s: State, t: NewTarget, pending: set<nat>, x: nat)
    requires Good(h, s, pending) && Known(s, t.deps) && FromQuery(t)
    requires x in WithTarget(s, t).targets && WithTarget(s, t).targets[x].hash.Some? && x !in Stored(s, t).reverseDeps
    ensures Right(h, WithTarget(s, t), x)
  {
    hide Right, Relinked, Stored, DepIDs, Typed;
    var s', id := WithTarget(s, t), IDFor(s, t.name);
    UpsertedPart(s, t);
    UpsertEdges(s, t);
    hide IDFor, Inverse;
    if x == id {
      UpsertedLeafRight(h, s, t);
    } else {
      UpsertPart(s, t, x);
      assert id !in s.targets[x].deps;
      UpsertRight(h, s, t, x);
    }
  }

  lemma UpsertPending(h: Digest, s: State, t: NewTarget, pending: set<nat>)
    requires Good(h, s, pending) && Known(s, t.deps)
    ensures forall x | x in WithTarget(s, t).targets && WithTarget(s, t).targets[x].hash.None? ::
        x in pending + Awaited(s, t)
    ensures pending + Awaited(s, t) <= WithTarget(s, t).targets.Keys
  {
    hide Right, Relinked, Stored, DepIDs, Typed, Transposed, NamesConsistent, RuleTypesConsistent, Known, WithTarget,
      IDFor;
    UpsertedPart(s, t);
    UpsertTables(s, t);
    forall x | x in WithTarget(s, t).targets && x != IDFor(s, t.name)
      ensures WithTarget(s, t).targets[x].hash == s.targets[x].hash
    {
      UpsertPart(s, t, x);
    }
  }

  lemma UpsertIsRepairable(h: Digest, s: State, t: NewTarget, pending: set<nat>)
    requires Good(h, s, pending) && Known(s, t.deps) && FromQuery(t)
    ensures Repairable(h, WithTarget(s, t), Stored(s, t).reverseDeps, pending + Awaited(s, t))
  {
    UpsertPending(h, s, t, pending);
    hide Right, Relinked, Stored, IDFor, DepIDs, Typed, Inverse, FromQuery, Awaited, Known;
    var s' := WithTarget(s, t);
    UpsertNames(s, t);
    UpsertRuleTypes(s, t);
    UpsertEdges(s, t);
    hide NamesConsistent, RuleTypesConsistent, Transposed;
    forall x | x in s'.targets ensures Typed(s', x) {
      UpsertTyped(s, t, x);
    }
    forall x | x in s'.targets && s'.targets[x].hash.Some? && x !in Stored(s, t).reverseDeps ensures Right(h, s', x) {
      UpsertStaysRight(h, s, t, pending, x);
    }
    hide WithTarget;
  }

  lemma TypedDependent(s: State, id: nat, x: nat)
    requires Transposed(s.targets) && id in s.targets && x in s.targets[id].reverseDeps && x in s.targets && Typed(s, x)
    ensures !IsLeafType(s.TypeOf(x))
  {
  }

  /** Upserting a target keeps every kept hash right and puts every cleared one
      on the list to recompute. */
  lemma UpsertKeepsGood(h: Digest, s: State, t: NewTarget, pending: set<nat>)
    requires Good(h, s, pending) && Known(s, t.deps) && FromQuery(t)
    ensures Good(h, Upserted(s, t), PendingUpserted(s, t, pending))
  {
    UpsertIsRepairable(h, s, t, pending);
    var s', id := WithTarget(s, t), IDFor(s, t.name);
    assert id in s'.targets && s'.targets[id].reverseDeps == Stored(s, t).reverseDeps;
    hide Good, Right, NamesConsistent, RuleTypesConsistent, Transposed, Cleared, Stored, WithTarget, IDFor, Typed,
      Known, Awaited;
    forall x | x in Stored(s, t).reverseDeps && x in s'.targets ensures !IsLeafType(s'.TypeOf(x)) {
      TypedDependent(s', id, x);
    }
    hide Repairable;
    InvalidationRestores(h, s', Stored(s, t).reverseDeps, pending + Awaited(s, t));
  }
}
