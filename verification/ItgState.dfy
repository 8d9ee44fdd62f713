/** The incremental graph as a value: what each update does to it, and what
    every update keeps. */
module ItgState {
  import opened Wrappers
  import opened ByteStrings
  import opened FiniteSets
  import opened Merkle
  import opened NameOrder

  const SOURCE_FILE := Ascii("source file")
  const PACKAGE_GROUP := Ascii("package group")
  const GENERATED_FILE := Ascii("generated file")

  /** Source files and package groups carry a hash of their own. */
  predicate IsLeafType(ruleType: Text) {
    ruleType == SOURCE_FILE || ruleType == PACKAGE_GROUP
  }

  predicate CanBeRoot(ruleType: Text) {
    ruleType != SOURCE_FILE && ruleType != PACKAGE_GROUP
  }

  /** A target; a hash of None is the invalidated hash. */
  datatype Target = Target(hash: Option<Text>, own: Option<Text>, ruleType: nat, deps: set<nat>, reverseDeps: set<nat>,
                           root: bool)

  datatype State = State(
    targets: map<nat, Target>, nameToID: map<Text, nat>, idToName: map<nat, Text>, nextID: nat,
    ruleTypeToID: map<Text, nat>, ruleTypes: map<nat, Text>)
  {
    function RuleTypeName(id: nat): Text {
      if id in ruleTypes then ruleTypes[id] else []
    }

    function TypeOf(id: nat): Text
      requires id in targets
    {
      RuleTypeName(targets[id].ruleType)
    }

    function Name(id: nat): Text {
      if id in idToName then idToName[id] else []
    }
  }

  /** A target of a query result, before it is stored. */
  datatype NewTarget = NewTarget(name: Text, hash: Option<Text>, own: Option<Text>, ruleType: Text, deps: seq<Text>)

  // ---- Invariants ----

  ghost predicate Inverse(ids: map<Text, nat>, names: map<nat, Text>) {
    && (forall n | n in ids :: ids[n] in names && names[ids[n]] == n)
    && (forall i | i in names :: names[i] in ids && ids[names[i]] == i)
  }

  /** Names and IDs are mutually inverse, cover the targets, and the next ID is
      unused. */
  ghost predicate NamesConsistent(s: State) {
    && s.idToName.Keys == s.targets.Keys
    && Inverse(s.nameToID, s.idToName)
    && (forall i | i in s.idToName :: i < s.nextID)
  }

  /** Rule types and their IDs are mutually inverse and numbered below their
      count, which is the next one. */
  ghost predicate RuleTypesConsistent(s: State) {
    && Inverse(s.ruleTypeToID, s.ruleTypes)
    && (forall i | i in s.ruleTypes :: i < |s.ruleTypeToID|)
    && (forall id | id in s.targets :: s.targets[id].ruleType in s.ruleTypes)
  }

  /** Reverse dependencies are exactly the transpose of dependencies, and no
      edge leaves the graph. */
  ghost predicate Transposed(targets: map<nat, Target>) {
    && (forall a, b | a in targets && b in targets[a].deps :: b in targets && a in targets[b].reverseDeps)
    && (forall a, b | b in targets && a in targets[b].reverseDeps :: a in targets && b in targets[a].deps)
  }

  lemma EdgesInside(targets: map<nat, Target>, id: nat)
    requires Transposed(targets) && id in targets
    ensures targets[id].deps <= targets.Keys && targets[id].reverseDeps <= targets.Keys
  {
  }

  // ---- The Merkle view ----

  /** Some dependency of a generated file, or ID 0 when it has none. */
  ghost function SingleDep(deps: set<nat>): (d: nat)
    ensures if deps == {} then d == 0 else d in deps
  {
    if d :| d in deps then d else 0
  }

  /** What computeHashes reads of a target. */
  ghost function NodeOf(s: State, id: nat): Node<nat>
    requires id in s.targets
  {
    var t := s.targets[id];
    if IsLeafType(s.TypeOf(id)) then Leaf(if t.hash.Some? then t.hash.value else [])
    else if s.TypeOf(id) == GENERATED_FILE then Alias(SingleDep(t.deps))
    else Rule(if t.own.Some? then t.own.value else [], Ordered(s.Name, t.deps))
  }

  ghost function Nodes(s: State): map<nat, Node<nat>> {
    map id | id in s.targets :: NodeOf(s, id)
  }

  ghost function Hashes(targets: map<nat, Target>): map<nat, Text> {
    map id | id in targets && targets[id].hash.Some? :: targets[id].hash.value
  }

  /** What the query promises of a stored target. */
  ghost predicate Typed(s: State, id: nat)
    requires id in s.targets
  {
    var t := s.targets[id];
    && (IsLeafType(s.TypeOf(id)) ==> t.deps == {} && t.hash.Some?)
    && (s.TypeOf(id) == GENERATED_FILE ==> |t.deps| <= 1)
    && (!IsLeafType(s.TypeOf(id)) && s.TypeOf(id) != GENERATED_FILE ==> t.own.Some?)
  }

  /** Generated files have not lost their generating rule. */
  ghost predicate Complete(s: State, id: nat)
    requires id in s.targets
  {
    Typed(s, id) && (s.TypeOf(id) == GENERATED_FILE ==> s.targets[id].deps != {})
  }

  /** A kept hash is right with respect to the kept hashes below it. */
  ghost predicate Right(h: Digest, s: State, id: nat)
    requires id in s.targets
  {
    s.targets[id].hash.Some? && Complete(s, id) && HashedAt(h, Nodes(s), Hashes(s.targets), id)
  }

  /** Everything an update relies on and keeps: consistent names and edges,
      every kept hash right, every cleared hash on the list to recompute. */
  ghost predicate Good(h: Digest, s: State, invalidated: set<nat>) {
    && NamesConsistent(s) && RuleTypesConsistent(s) && Transposed(s.targets)
    && (forall id | id in s.targets :: Typed(s, id))
    && (forall id | id in s.targets && s.targets[id].hash.Some? :: Right(h, s, id))
    && (forall id | id in s.targets && s.targets[id].hash.None? :: id in invalidated)
    && invalidated <= s.targets.Keys
  }

  lemma NodeDeps(s: State, id: nat)
    requires id in s.targets && Complete(s, id) && NamesConsistent(s) && s.targets[id].deps <= s.targets.Keys
    ensures forall d :: d in DepsOf(NodeOf(s, id)) <==> d in s.targets[id].deps
  {
    var t := s.targets[id];
    if IsLeafType(s.TypeOf(id)) {
    } else if s.TypeOf(id) == GENERATED_FILE {
      SmallSet(t.deps);
    } else {
      OrderExists(s.Name, t.deps);
    }
  }

  lemma SmallSet(deps: set<nat>)
    requires |deps| <= 1
    ensures forall a, b | a in deps && b in deps :: a == b
  {
    forall a, b | a in deps && b in deps ensures a == b {
      if a != b {
        assert {a, b} <= deps;
        SubsetSize({a, b}, deps);
      }
    }
  }

  // ---- Invalidation ----

  /** `x` still has a hash and is reached from `ids` in `n` reverse steps
      through targets that still have theirs. */
  ghost predicate LiveReach(targets: map<nat, Target>, ids: set<nat>, x: nat, n: nat)
    decreases n
  {
    && x in targets && targets[x].hash.Some?
    && (x in ids || (n > 0 && exists y ::
          y in targets && x in targets[y].reverseDeps && LiveReach(targets, ids, y, n - 1)))
  }

  /** Reached from `ids` in `n` reverse steps, whatever the hashes. */
  ghost predicate Reach(targets: map<nat, Target>, ids: set<nat>, x: nat, n: nat)
    decreases n
  {
    && x in targets
    && (x in ids || (n > 0 && exists y :: y in targets && x in targets[y].reverseDeps && Reach(targets, ids, y, n - 1)))
  }

  ghost function Cleared(targets: map<nat, Target>, ids: set<nat>): set<nat> {
    set x | x in targets && exists n: nat :: LiveReach(targets, ids, x, n)
  }

  ghost function WithoutHashes(targets: map<nat, Target>, gone: set<nat>): map<nat, Target> {
    map x | x in targets :: if x in gone then targets[x].(hash := None) else targets[x]
  }

  ghost function Invalidated(s: State, ids: set<nat>): State {
    s.(targets := WithoutHashes(s.targets, Cleared(s.targets, ids)))
  }

  /** A set that starts with `ids` and follows every reverse edge contains all
      that is reached. */
  lemma {:induction false} ReachStaysInside(targets: map<nat, Target>, ids: set<nat>, gone: set<nat>, x: nat, n: nat)
    requires forall i | i in ids && i in targets && targets[i].hash.Some? :: i in gone
    requires forall y, r | y in gone && y in targets && r in targets[y].reverseDeps && r in targets &&
        targets[r].hash.Some? ::
        r in gone
    requires LiveReach(targets, ids, x, n)
    ensures x in gone
    decreases n
  {
    if x !in ids {
      var y :| y in targets && x in targets[y].reverseDeps && LiveReach(targets, ids, y, n - 1);
      ReachStaysInside(targets, ids, gone, y, n - 1);
    }
  }

  lemma ClearedFollows(targets: map<nat, Target>, ids: set<nat>, y: nat, r: nat)
    requires y in targets && r in targets && targets[r].hash.Some? && r in targets[y].reverseDeps
    requires y in Cleared(targets, ids)
    ensures r in Cleared(targets, ids)
  {
    var n: nat :| LiveReach(targets, ids, y, n);
    assert LiveReach(targets, ids, r, n + 1);
  }

  lemma ClearedStarts(targets: map<nat, Target>, ids: set<nat>, x: nat)
    requires x in ids && x in targets && targets[x].hash.Some?
    ensures x in Cleared(targets, ids)
  {
    assert LiveReach(targets, ids, x, 0);
  }

  lemma {:induction false} LiveIsReach(targets: map<nat, Target>, ids: set<nat>, x: nat, n: nat)
    requires LiveReach(targets, ids, x, n)
    ensures Reach(targets, ids, x, n)
    decreases n
  {
    if x !in ids {
      var y :| y in targets && x in targets[y].reverseDeps && LiveReach(targets, ids, y, n - 1);
      LiveIsReach(targets, ids, y, n - 1);
    }
  }

  lemma {:induction false} ReachIsLive(targets: map<nat, Target>, ids: set<nat>, x: nat, n: nat)
    requires Reach(targets, ids, x, n)
    requires forall y, r | y in targets && targets[y].hash.None? && r in targets[y].reverseDeps && r in targets ::
        targets[r].hash.None? || r in ids
    ensures targets[x].hash.Some? ==> LiveReach(targets, ids, x, n)
    decreases n
  {
    if x !in ids {
      var y :| y in targets && x in targets[y].reverseDeps && Reach(targets, ids, y, n - 1);
      ReachIsLive(targets, ids, y, n - 1);
    }
  }

  ghost predicate Reachable(targets: map<nat, Target>, ids: set<nat>, x: nat) {
    exists n: nat :: Reach(targets, ids, x, n)
  }

  /** When cleared hashes were closed under reverse edges up to `ids`, the
      worklist clears exactly what is reachable at all, and no more. */
  lemma ClearingIsReachability(targets: map<nat, Target>, ids: set<nat>, x: nat)
    requires x in targets && targets[x].hash.Some?
    requires forall y, r | y in targets && targets[y].hash.None? && r in targets[y].reverseDeps && r in targets ::
        targets[r].hash.None? || r in ids
    ensures x in Cleared(targets, ids) <==> Reachable(targets, ids, x)
  {
    if x in Cleared(targets, ids) {
      var n: nat :| LiveReach(targets, ids, x, n);
      LiveIsReach(targets, ids, x, n);
    }
    if Reachable(targets, ids, x) {
      var n: nat :| Reach(targets, ids, x, n);
      ReachIsLive(targets, ids, x, n);
      assert LiveReach(targets, ids, x, n);
    }
  }

  // ---- Nodes that an update does not touch ----

  /** The order of `ids` by name depends on their names only. */
  lemma OrderByNames(s: State, s': State, ids: set<nat>)
    requires forall i | i in ids :: s'.Name(i) == s.Name(i)
    ensures Ordered(s'.Name, ids) == Ordered(s.Name, ids)
  {
    if list :| InOrder(s.Name, ids, list) {
      SameNamesSameOrder(s, s', ids, list);
      OrderedIs(s.Name, ids, list);
      OrderedIs(s'.Name, ids, list);
    } else if list :| InOrder(s'.Name, ids, list) {
      SameNamesSameOrder(s', s, ids, list);
    }
  }

  lemma SameNamesSameOrder(s: State, s': State, ids: set<nat>, list: seq<nat>)
    requires forall i | i in ids :: s'.Name(i) == s.Name(i)
    requires InOrder(s.Name, ids, list)
    ensures InOrder(s'.Name, ids, list)
  {
    forall i, j | 0 <= i < j < |list| ensures Less(s'.Name(list[i]), s'.Name(list[j])) {
      assert list[i] in list && list[j] in list;
    }
  }

  lemma NodeByParts(s: State, s': State, id: nat)
    requires id in s.targets && id in s'.targets
    requires s'.TypeOf(id) == s.TypeOf(id) && s'.targets[id].deps == s.targets[id].deps
    requires s'.targets[id].own == s.targets[id].own
    requires IsLeafType(s.TypeOf(id)) ==> s'.targets[id].hash == s.targets[id].hash
    requires forall i | i in s.targets[id].deps :: s'.Name(i) == s.Name(i)
    ensures NodeOf(s', id) == NodeOf(s, id)
  {
    OrderByNames(s, s', s.targets[id].deps);
  }

  lemma {:induction false} RecordedAgrees(hashes: map<nat, Text>, hashes': map<nat, Text>, deps: seq<nat>)
    requires AllHashed(hashes, deps) && forall d | d in deps :: d in hashes' && hashes'[d] == hashes[d]
    ensures AllHashed(hashes', deps) && Recorded(hashes', deps) == Recorded(hashes, deps)
  {
    if deps != [] {
      var last := deps[|deps| - 1];
      assert last in deps && hashes'[last] == hashes[last];
      RecordedAgrees(hashes, hashes', deps[..|deps| - 1]);
    }
  }

  /** A right hash stays right where its node and the hashes below it stay. */
  lemma StaysRight(h: Digest, s: State, s': State, id: nat)
    requires id in s.targets && id in s'.targets && Right(h, s, id) && s'.targets[id].hash == s.targets[id].hash
    requires NodeOf(s', id) == NodeOf(s, id) && Complete(s', id)
    requires forall d | d in DepsOf(NodeOf(s, id)) ::
        d in s'.targets && d in s.targets && s'.targets[d].hash == s.targets[d].hash
    ensures Right(h, s', id)
  {
    var hs, hs' := Hashes(s.targets), Hashes(s'.targets);
    forall d | d in DepsOf(NodeOf(s, id)) ensures d in hs' && hs'[d] == hs[d] {
      assert d in hs;
    }
    RecordedAgrees(hs, hs', DepsOf(NodeOf(s, id)));
  }

  /** The part of the graph an update leaves alone around `x`. */
  ghost predicate Untouched(s: State, s': State, x: nat) {
    && x in s.targets && x in s'.targets
    && s'.TypeOf(x) == s.TypeOf(x) && s'.targets[x].deps == s.targets[x].deps
    && s'.targets[x].own == s.targets[x].own && s'.targets[x].hash == s.targets[x].hash
    && forall d | d in s.targets[x].deps ::
          d in s.targets && d in s'.targets && s'.Name(d) == s.Name(d) && s'.targets[d].hash == s.targets[d].hash
  }

  lemma UntouchedStaysRight(h: Digest, s: State, s': State, x: nat)
    requires NamesConsistent(s) && Untouched(s, s', x) && Right(h, s, x)
    ensures Right(h, s', x)
  {
    NodeByParts(s, s', x);
    NodeDeps(s, x);
    assert Complete(s', x);
    hide NodeOf, NamesConsistent;
    StaysRight(h, s, s', x);
  }

  // ---- Invalidation repairs every kept hash ----

  /** Clearing hashes changes nothing but hashes. */
  lemma InvalidatedKeeps(s: State, ids: set<nat>, id: nat)
    requires id in s.targets
    ensures Invalidated(s, ids).TypeOf(id) == s.TypeOf(id)
    ensures Invalidated(s, ids).targets[id].deps == s.targets[id].deps
    ensures Invalidated(s, ids).targets[id].reverseDeps == s.targets[id].reverseDeps
    ensures Invalidated(s, ids).targets[id].own == s.targets[id].own
    ensures Invalidated(s, ids).targets[id].hash == if id in Cleared(s.targets, ids) then None else s.targets[id].hash
  {
  }

  /** After invalidating from every target whose own hash may be wrong, every
      hash that is left is right. */
  lemma InvalidationRepairs(h: Digest, s: State, ids: set<nat>, id: nat)
    requires NamesConsistent(s) && Transposed(s.targets)
    requires forall x | x in s.targets && s.targets[x].hash.Some? && x !in ids :: Right(h, s, x)
    requires id in s.targets && Invalidated(s, ids).targets[id].hash.Some?
    ensures Right(h, Invalidated(s, ids), id)
  {
    var s' := Invalidated(s, ids);
    InvalidatedKeeps(s, ids, id);
    if id in ids {
      ClearedStarts(s.targets, ids, id);
    }
    assert Right(h, s, id);
    forall d | d in s.targets[id].deps ensures d in s.targets && s'.targets[d].hash == s.targets[d].hash {
      InvalidatedKeeps(s, ids, d);
      if d in Cleared(s.targets, ids) {
        ClearedFollows(s.targets, ids, d, id);
      }
    }
    hide Right, NamesConsistent, Cleared;
    UntouchedStaysRight(h, s, s', id);
  }

  /** The part of Good that holds before the worklist runs, with `ids` still to
      be invalidated. */
  ghost predicate Repairable(h: Digest, s: State, ids: set<nat>, pending: set<nat>) {
    && NamesConsistent(s) && RuleTypesConsistent(s) && Transposed(s.targets)
    && (forall id | id in s.targets :: Typed(s, id))
    && (forall id | id in s.targets && s.targets[id].hash.Some? && id !in ids :: Right(h, s, id))
    && (forall id | id in s.targets && s.targets[id].hash.None? :: id in pending)
    && pending <= s.targets.Keys
  }

  lemma LeavesKeepHashes(s: State, ids: set<nat>, id: nat)
    requires Transposed(s.targets) && id in s.targets && Typed(s, id) && IsLeafType(s.TypeOf(id))
    requires forall x | x in ids && x in s.targets :: !IsLeafType(s.TypeOf(x))
    ensures id !in Cleared(s.targets, ids)
  {
  }

  /** Nothing but hashes differs. */
  ghost predicate SameButHashes(s: State, s': State) {
    && s' == s.(targets := s'.targets) && s'.targets.Keys == s.targets.Keys
    && forall x | x in s.targets :: s'.targets[x] == s.targets[x].(hash := s'.targets[x].hash)
  }

  lemma StructureWithoutHashes(s: State, s': State)
    requires SameButHashes(s, s')
    ensures NamesConsistent(s) ==> NamesConsistent(s')
    ensures RuleTypesConsistent(s) ==> RuleTypesConsistent(s')
    ensures Transposed(s.targets) ==> Transposed(s'.targets)
  {
    assert NamesConsistent(s) ==> NamesConsistent(s') by {
      hide RuleTypesConsistent, Transposed;
    }
    assert RuleTypesConsistent(s) ==> RuleTypesConsistent(s') by {
      hide NamesConsistent, Transposed;
    }
    assert Transposed(s.targets) ==> Transposed(s'.targets) by {
      hide NamesConsistent, RuleTypesConsistent;
    }
  }

  lemma InvalidatedStructure(s: State, ids: set<nat>)
    ensures SameButHashes(s, Invalidated(s, ids))
  {
    hide Cleared;
  }

  lemma InvalidatedTyped(s: State, ids: set<nat>, x: nat)
    requires Transposed(s.targets) && x in s.targets && Typed(s, x)
    requires forall y | y in ids && y in s.targets :: !IsLeafType(s.TypeOf(y))
    ensures Typed(Invalidated(s, ids), x)
  {
    if IsLeafType(s.TypeOf(x)) {
      LeavesKeepHashes(s, ids, x);
    }
    hide Cleared, Transposed;
  }

  lemma InvalidationRestores(h: Digest, s: State, ids: set<nat>, pending: set<nat>)
    requires Repairable(h, s, ids, pending)
    requires forall x | x in ids && x in s.targets :: !IsLeafType(s.TypeOf(x))
    ensures Good(h, Invalidated(s, ids), pending + Cleared(s.targets, ids))
  {
    hide Right, Typed, Cleared, NamesConsistent, RuleTypesConsistent, Transposed, LiveReach;
    var s' := Invalidated(s, ids);
    InvalidatedStructure(s, ids);
    StructureWithoutHashes(s, s');
    forall x | x in s.targets ensures Typed(s', x) {
      InvalidatedTyped(s, ids, x);
    }
    forall x | x in s'.targets && s'.targets[x].hash.Some? ensures Right(h, s', x) {
      InvalidationRepairs(h, s, ids, x);
    }
    ClearedInside(s.targets, ids);
  }

  lemma ClearedInside(targets: map<nat, Target>, ids: set<nat>)
    ensures Cleared(targets, ids) <= targets.Keys
  {
  }
}
