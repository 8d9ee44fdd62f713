/** Recomputing invalidated hashes in place. */
module ItgHashing {
  import opened Wrappers
  import opened ByteStrings
  import opened Sorting
  import opened Merkle
  import opened NameOrder
  import opened ItgState
  import opened ItgGraph

  // ---- Filling in hashes ----

  /** Hashes were filled in and nothing else changed. */
  ghost predicate Filled(s: State, s': State) {
    SameButHashes(s, s') && forall x | x in s.targets && s.targets[x].hash.Some? ::
        s'.targets[x].hash == s.targets[x].hash
  }

  /** Nothing stands in the way of computing every hash. */
  ghost predicate Ready(s: State) {
    && NamesConsistent(s)
    && forall x | x in s.targets :: Complete(s, x) && s.targets[x].deps <= s.targets.Keys
  }

  ghost predicate HashIs(h: Digest, s: State, rank: map<nat, nat>, x: nat, hash: Option<Text>)
    requires Ranked(Nodes(s), rank) && x in s.targets
  {
    hash == Some(Hash(h, Nodes(s), rank, x))
  }

  /** What makes the hash of `id` come out right: an acyclic graph whose hashes
      up to `id`'s rank are right so far. */
  ghost predicate Sound(h: Digest, s: State, rank: map<nat, nat>, id: nat) {
    && Ready(s) && id in s.targets && Ranked(Nodes(s), rank)
    && forall x | x in s.targets && s.targets[x].hash.Some? && rank[x] <= rank[id] ::
          HashIs(h, s, rank, x, s.targets[x].hash)
  }

  /** Every hash filled in between `s` and `s'`, but perhaps `but`'s, is right. */
  ghost predicate FillsRight(h: Digest, s: State, s': State, rank: map<nat, nat>, but: set<nat>)
    requires Ranked(Nodes(s), rank) && s'.targets.Keys == s.targets.Keys
  {
    forall x | x in s.targets && x !in but && s.targets[x].hash.None? && s'.targets[x].hash.Some? ::
        HashIs(h, s, rank, x, s'.targets[x].hash)
  }

  ghost predicate ComputedRight(h: Digest, s: State, s': State, rank: map<nat, nat>, id: nat)
    requires s'.targets.Keys == s.targets.Keys
  {
    Sound(h, s, rank, id) ==> HashIs(h, s, rank, id, s'.targets[id].hash) && FillsRight(h, s, s', rank, {})
  }

  lemma ReadyStays(s: State, s': State)
    requires Ready(s) && Filled(s, s')
    ensures Ready(s')
  {
    forall x | x in s'.targets ensures Complete(s', x) {
      assert Complete(s, x);
    }
  }

  lemma NodesStay(s: State, s': State)
    requires Ready(s) && Filled(s, s')
    ensures Nodes(s') == Nodes(s)
  {
    forall x | x in s.targets ensures NodeOf(s', x) == NodeOf(s, x) {
      assert Complete(s, x);
      NodeByParts(s, s', x);
    }
  }

  lemma DepsAreNodes(s: State, id: nat)
    requires Ready(s) && id in s.targets
    ensures forall d :: d in DepsOf(Nodes(s)[id]) <==> d in s.targets[id].deps
  {
    assert Complete(s, id);
    NodeDeps(s, id);
  }

  lemma SoundEdge(h: Digest, s: State, rank: map<nat, nat>, id: nat, dep: nat)
    requires Sound(h, s, rank, id) && dep in DepsOf(Nodes(s)[id])
    ensures Ranked(Nodes(s), rank) && id in rank && dep in Nodes(s) && dep in rank && rank[dep] < rank[id]
  {
    hide NodeOf, DepsOf, Ready;
  }

  lemma SoundDepIsNode(h: Digest, s: State, rank: map<nat, nat>, id: nat, dep: nat)
    requires Sound(h, s, rank, id) && dep in s.targets[id].deps
    ensures dep in DepsOf(Nodes(s)[id])
  {
    DepsAreNodes(s, id);
  }

  /** A dependency is as soundly hashed as the target it is hashed for. */
  lemma SoundDep(h: Digest, s: State, s': State, rank: map<nat, nat>, id: nat, dep: nat)
    requires Sound(h, s, rank, id) && Filled(s, s') && FillsRight(h, s, s', rank, {id}) && s.targets[id].hash.None?
    requires dep in s.targets[id].deps
    ensures Sound(h, s', rank, dep) && rank[dep] < rank[id]
  {
    hide Nodes, Ready, Ranked, DepsOf;
    ReadyStays(s, s');
    NodesStay(s, s');
    SoundDepIsNode(h, s, rank, id, dep);
    SoundEdge(h, s, rank, id, dep);
    NodeKeys(s);
  }

  lemma NodeKeys(s: State)
    ensures Nodes(s).Keys == s.targets.Keys
  {
    hide NodeOf;
  }

  lemma FillsCompose(h: Digest, s: State, s': State, s'': State, rank: map<nat, nat>, id: nat)
    requires Ranked(Nodes(s), rank) && Nodes(s') == Nodes(s) && Filled(s, s') && Filled(s', s'')
    requires FillsRight(h, s, s', rank, {id}) && FillsRight(h, s', s'', rank, {})
    ensures FillsRight(h, s, s'', rank, {id})
  {
    hide Nodes, Ranked;
    forall x | x in s.targets && x != id && s.targets[x].hash.None? && s''.targets[x].hash.Some?
      ensures HashIs(h, s, rank, x, s''.targets[x].hash)
    {
      if s'.targets[x].hash.None? {
        assert HashIs(h, s', rank, x, s''.targets[x].hash);
      } else {
        assert HashIs(h, s, rank, x, s'.targets[x].hash);
      }
    }
  }

  lemma FilledDep(h: Digest, s: State, s': State, s'': State, rank: map<nat, nat>, id: nat, dep: nat)
    requires Sound(h, s, rank, id) && Filled(s, s') && FillsRight(h, s, s', rank, {id}) && s.targets[id].hash.None?
    requires dep in s.targets[id].deps && Filled(s', s'')
    requires dep in s'.targets && ComputedRight(h, s', s'', rank, dep)
    ensures dep in s.targets && Filled(s, s'') && FillsRight(h, s, s'', rank, {id})
    ensures HashIs(h, s, rank, dep, s''.targets[dep].hash)
  {
    hide Nodes, Ready, Ranked, FillsRight;
    SoundDep(h, s, s', rank, id, dep);
    NodesStay(s, s');
    FillsCompose(h, s, s', s'', rank, id);
  }

  // ---- Computing ----

  /** The members of `ids` by name; ties and gaps aside, the order is unique. */
  method SortIDs(g: OptimizedGraph, ids: set<nat>) returns (list: seq<nat>)
    requires g.Keyed()
    ensures forall i :: i in list <==> i in ids
    ensures NoDuplicates(list)
    ensures DistinctNames(g.Abs().Name, ids) ==> list == Ordered(g.Abs().Name, ids)
  {
    list := [];
    var left := ids;
    while left != {}
      invariant left <= ids
      invariant forall i :: i in list <==> i in ids && i !in left
      invariant NoDuplicates(list)
      decreases left
    {
      var i :| i in left;
      list := list + [i];
      left := left - {i};
    }
    var names := g.TargetIDToString;
    var leq := (a: nat, b: nat) => LessEq(if a in names then names[a] else [], if b in names then names[b] else []);
    var sorted := Sort(leq, list);
    SameElements(list, sorted);
    SortingKeepsDistinct(list, sorted);
    if DistinctNames(g.Abs().Name, ids) {
      LessEqIsTotalOrder();
      SortSorted(leq, list);
      SortedByName(g.Abs(), leq, ids, sorted);
      OrderedIs(g.Abs().Name, ids, sorted);
    }
    list := sorted;
  }

  lemma SortedByName(s: State, leq: (nat, nat) -> bool, ids: set<nat>, sorted: seq<nat>)
    requires forall a, b :: leq(a, b) <==> LessEq(s.Name(a), s.Name(b))
    requires Sorted(leq, sorted) && NoDuplicates(sorted) && forall i :: i in sorted <==> i in ids
    requires DistinctNames(s.Name, ids)
    ensures InOrder(s.Name, ids, sorted)
  {
    forall i, j | 0 <= i < j < |sorted| ensures Less(s.Name(sorted[i]), s.Name(sorted[j])) {
      assert leq(sorted[i], sorted[j]) && sorted[i] != sorted[j];
      assert sorted[i] in ids && sorted[j] in ids;
    }
  }

  ghost function Unhashed(targets: map<nat, Target>): set<nat> {
    set x | x in targets && targets[x].hash.None?
  }

  /** Target `id` is being visited: its hash is empty for now, and every other
      hash filled in since `s` is right. */
  ghost predicate Visiting(h: Digest, s: State, s': State, rank: map<nat, nat>, id: nat) {
    && Filled(s, s') && id in s.targets && s.targets[id].hash.None? && s'.targets[id].hash == Some([])
    && (Sound(h, s, rank, id) ==> FillsRight(h, s, s', rank, {id}))
  }

  /** The bytes hashed so far for rule `id`. */
  ghost predicate Accumulated(h: Digest, s: State, rank: map<nat, nat>, id: nat, own: Text, list: seq<nat>,
                              bytes: Text) {
    Sound(h, s, rank, id) ==> id in rank && BytesOf(h, Nodes(s), rank, rank[id], own, list, bytes)
  }

  lemma StartVisiting(h: Digest, s: State, s': State, rank: map<nat, nat>, id: nat)
    requires id in s.targets && s.targets[id].hash.None?
    requires s' == s.(targets := s.targets[id := s.targets[id].(hash := Some([]))])
    ensures Visiting(h, s, s', rank, id)
    ensures id in Unhashed(s.targets) && Unhashed(s'.targets) == Unhashed(s.targets) - {id}
  {
    hide Nodes, Ready;
  }

  lemma FillingShrinks(s: State, s': State)
    requires Filled(s, s')
    ensures Unhashed(s'.targets) <= Unhashed(s.targets) && s'.targets.Keys == s.targets.Keys
    ensures s'.nameToID == s.nameToID && s'.idToName == s.idToName
  {
  }

  lemma FillsTwice(s: State, s': State, s'': State)
    requires Filled(s, s') && Filled(s', s'')
    ensures Filled(s, s'')
  {
  }

  lemma VisitedDep(h: Digest, s: State, s': State, s'': State, rank: map<nat, nat>, id: nat, dep: nat)
    requires Visiting(h, s, s', rank, id) && Filled(s', s'') && dep in s.targets[id].deps && dep in s'.targets
    requires ComputedRight(h, s', s'', rank, dep)
    ensures Visiting(h, s, s'', rank, id)
    ensures Sound(h, s, rank, id) ==>
      dep in s.targets && HashIs(h, s, rank, dep, s''.targets[dep].hash) && dep in DepsOf(Nodes(s)[id])
  {
    hide Nodes, Ready, Sound, FillsRight, HashIs, ComputedRight;
    FillsTwice(s, s', s'');
    if Sound(h, s, rank, id) {
      FilledDep(h, s, s', s'', rank, id, dep);
      SoundDepIsNode(h, s, rank, id, dep);
    }
  }

  lemma AccumulatedNext(h: Digest, s: State, rank: map<nat, nat>, id: nat, own: Text, list: seq<nat>, i: nat,
                        bytes: Text, dephash: Text)
    requires i < |list| && Accumulated(h, s, rank, id, own, list[..i], bytes)
    requires Sound(h, s, rank, id) ==>
      list[i] in s.targets && list[i] in DepsOf(Nodes(s)[id]) && HashIs(h, s, rank, list[i], Some(dephash))
    ensures Accumulated(h, s, rank, id, own, list[..i + 1], bytes + dephash)
  {
    hide Sound, Nodes, Ranked, HashAll, Hash, DepsOf, BytesOf;
    if Sound(h, s, rank, id) {
      SoundEdge(h, s, rank, id, list[i]);
      BytesOneMore(h, Nodes(s), rank, rank[id], own, list[..i], bytes, list[i], dephash);
      assert list[..i + 1] == list[..i] + [list[i]];
    }
  }

  method RuleBytes(g: OptimizedGraph, h: Digest, id: nat, own: Text, ghost s: State, ghost rank: map<nat, nat>)
    returns (r: Result<Text>, ghost list: seq<nat>)
    requires g.Keyed() && id in g.OptimizedTargets && Visiting(h, s, g.Abs(), rank, id)
    modifies g.OptimizedTargets.Values
    ensures Filled(s, g.Abs()) && (r.Ok? ==> Visiting(h, s, g.Abs(), rank, id))
    ensures Ready(s) ==> r.Ok? && list == Ordered(s.Name, s.targets[id].deps)
    ensures r.Ok? ==> Accumulated(h, s, rank, id, own, list, r.value)
    decreases Unhashed(g.Values()), 1
  {
    hide Sound, FillsRight, HashIs, Ready, Nodes, Visiting, Accumulated, Filled, Unhashed, Ordered, DistinctNames,
      ComputedRight;
    var bytes := own;
    ghost var started := g.Abs();
    VisitingDeps(h, s, started, rank, id);
    assert started.targets[id] == g.OptimizedTargets[id].Value();
    var depIDs := SortIDs(g, g.OptimizedTargets[id].Deps);
    list := depIDs;
    NothingAccumulated(h, s, rank, id, own);
    var i := 0;
    assert depIDs[..0] == [];
    while i < |depIDs|
      invariant 0 <= i <= |depIDs|
      invariant Visiting(h, s, g.Abs(), rank, id)
      invariant Filled(started, g.Abs())
      invariant Accumulated(h, s, rank, id, own, depIDs[..i], bytes)
    {
      ghost var before := g.Abs();
      FillingShrinks(started, before);
      assert depIDs[i] in depIDs;
      VisitingIsReady(h, s, before, rank, id, depIDs[i]);
      var dephash := ComputeHashes(g, h, depIDs[i], rank);
      FillsTwice(started, before, g.Abs());
      if dephash.Err? {
        VisitingDeps(h, s, before, rank, id);
        FillsTwice(s, before, g.Abs());
        r := Err;
        return;
      }
      VisitedDep(h, s, before, g.Abs(), rank, id, depIDs[i]);
      AccumulatedNext(h, s, rank, id, own, depIDs, i, bytes, dephash.value);
      bytes := bytes + dephash.value;
      i := i + 1;
    }
    assert depIDs[..i] == depIDs;
    VisitingDeps(h, s, g.Abs(), rank, id);
    r := Ok(bytes);
  }

  lemma VisitingDeps(h: Digest, s: State, s': State, rank: map<nat, nat>, id: nat)
    requires Visiting(h, s, s', rank, id)
    ensures Filled(s, s') && Filled(s', s') && id in s.targets && id in s'.targets
    ensures s'.targets[id].deps == s.targets[id].deps
    ensures Ready(s) ==> DistinctNames(s'.Name, s.targets[id].deps)
    ensures Ordered(s'.Name, s.targets[id].deps) == Ordered(s.Name, s.targets[id].deps)
  {
    hide Sound, FillsRight;
    OrderByNames(s, s', s.targets[id].deps);
  }

  lemma VisitingIsReady(h: Digest, s: State, s': State, rank: map<nat, nat>, id: nat, dep: nat)
    requires Visiting(h, s, s', rank, id) && id in s.targets && dep in s.targets[id].deps
    ensures Ready(s) ==> Ready(s') && dep in s'.targets
  {
    hide Sound, FillsRight;
    if Ready(s) {
      ReadyStays(s, s');
    }
  }

  lemma NothingAccumulated(h: Digest, s: State, rank: map<nat, nat>, id: nat, own: Text)
    ensures Accumulated(h, s, rank, id, own, [], own)
  {
    hide Ready;
  }

  lemma AliasDone(h: Digest, s: State, s': State, s'': State, rank: map<nat, nat>, id: nat, dep: nat, hash: Text)
    requires Visiting(h, s, s', rank, id) && Filled(s', s'') && s.TypeOf(id) == GENERATED_FILE
    requires dep in s'.targets && s''.targets[dep].hash == Some(hash) && ComputedRight(h, s', s'', rank, dep)
    requires if s.targets[id].deps == {} then dep == 0 else dep in s.targets[id].deps
    ensures Visiting(h, s, s'', rank, id)
    ensures Sound(h, s, rank, id) ==> HashIs(h, s, rank, id, Some(hash))
  {
    hide Nodes, FillsRight, HashIs, ComputedRight;
    if s.targets[id].deps == {} {
      assert !Ready(s) by {
        assert !Complete(s, id);
      }
      FillsTwice(s, s', s'');
    } else {
      VisitedDep(h, s, s', s'', rank, id, dep);
      if Sound(h, s, rank, id) {
        HashOfAlias(h, s, rank, id, dep, hash);
      }
    }
  }

  lemma HashOfAlias(h: Digest, s: State, rank: map<nat, nat>, id: nat, dep: nat, hash: Text)
    requires Sound(h, s, rank, id) && s.TypeOf(id) == GENERATED_FILE && dep in s.targets[id].deps
    requires dep in s.targets && HashIs(h, s, rank, dep, Some(hash))
    ensures HashIs(h, s, rank, id, Some(hash))
  {
    assert Complete(s, id);
    SmallSet(s.targets[id].deps);
    assert Nodes(s)[id] == Alias(dep);
    hide NodeOf, Complete;
  }

  lemma RuleDone(h: Digest, s: State, rank: map<nat, nat>, id: nat, own: Text, list: seq<nat>, bytes: Text)
    requires id in s.targets && !IsLeafType(s.TypeOf(id)) && s.TypeOf(id) != GENERATED_FILE
    requires s.targets[id].own == Some(own)
    requires Accumulated(h, s, rank, id, own, list, bytes) && (Ready(s) ==> list == Ordered(s.Name, s.targets[id].deps))
    ensures Sound(h, s, rank, id) ==> HashIs(h, s, rank, id, Some(h(bytes)))
  {
    hide Ready;
  }

  lemma VisitDone(h: Digest, s: State, s': State, rank: map<nat, nat>, id: nat, hash: Text)
    requires Visiting(h, s, s', rank, id)
    requires Sound(h, s, rank, id) ==> HashIs(h, s, rank, id, Some(hash))
    ensures id in s'.targets
    ensures var s'' := s'.(targets := s'.targets[id := s'.targets[id].(hash := Some(hash))]);
      Filled(s, s'') && ComputedRight(h, s, s'', rank, id)
  {
    hide Nodes, Ready, HashIs;
  }

  lemma VisitFailed(h: Digest, s: State, s': State, rank: map<nat, nat>, id: nat)
    requires id in s.targets && Filled(s, s') && !Ready(s)
    ensures ComputedRight(h, s, s', rank, id)
  {
    hide Ready;
  }

  lemma VisitingOrphan(h: Digest, s: State, s': State, rank: map<nat, nat>, id: nat)
    requires Visiting(h, s, s', rank, id) && s.TypeOf(id) == GENERATED_FILE && s.targets[id].deps == {}
    ensures !Ready(s)
  {
    UnhashedLeaf(s, id);
  }

  lemma UnhashedLeaf(s: State, id: nat)
    requires id in s.targets && s.targets[id].hash.None?
    requires s.TypeOf(id) == GENERATED_FILE ==> s.targets[id].deps == {}
    requires IsLeafType(s.TypeOf(id)) || s.TypeOf(id) == GENERATED_FILE || s.targets[id].own.None?
    ensures !Ready(s)
  {
    assert !Complete(s, id);
  }

  method GeneratedHash(g: OptimizedGraph, h: Digest, id: nat, ghost s: State, ghost rank: map<nat, nat>)
    returns (r: Result<Text>)
    requires g.Keyed() && id in g.OptimizedTargets && Visiting(h, s, g.Abs(), rank, id)
    requires s.TypeOf(id) == GENERATED_FILE
    modifies g.OptimizedTargets.Values
    ensures Filled(s, g.Abs()) && (r.Ok? ==> Visiting(h, s, g.Abs(), rank, id))
    ensures Ready(s) ==> r.Ok?
    ensures r.Ok? && Sound(h, s, rank, id) ==> HashIs(h, s, rank, id, Some(r.value))
    decreases Unhashed(g.Values()), 1
  {
    hide Sound, FillsRight, HashIs, Ready, Nodes, Visiting, Filled, Unhashed, ComputedRight;
    VisitingDeps(h, s, g.Abs(), rank, id);
    ghost var before := g.Abs();
    var target := g.OptimizedTargets[id];
    assert before.targets[id] == target.Value();
    var singleDep := 0;
    if target.Deps != {} {
      var dep :| dep in target.Deps;
      singleDep := dep;
      VisitingIsReady(h, s, before, rank, id, dep);
    } else {
      VisitingOrphan(h, s, before, rank, id);
    }
    r := ComputeHashes(g, h, singleDep, rank);
    if r.Ok? {
      AliasDone(h, s, before, g.Abs(), rank, id, singleDep, r.value);
      VisitingDeps(h, s, g.Abs(), rank, id);
    } else {
      FillsTwice(s, before, g.Abs());
    }
  }

  method ComputeHashes(g: OptimizedGraph, h: Digest, id: nat, ghost rank: map<nat, nat>) returns (r: Result<Text>)
    requires g.Keyed()
    modifies g.OptimizedTargets.Values
    ensures Filled(old(g.Abs()), g.Abs())
    ensures r.Ok? ==> id in g.OptimizedTargets && g.OptimizedTargets[id].Hash == Some(r.value)
    ensures id in g.OptimizedTargets && Ready(old(g.Abs())) ==> r.Ok?
    ensures id !in g.OptimizedTargets ==> g.Abs() == old(g.Abs())
    ensures id in g.OptimizedTargets ==> ComputedRight(h, old(g.Abs()), g.Abs(), rank, id)
    decreases Unhashed(g.Values()), 0
  {
    hide Sound, FillsRight, HashIs, Ready, Nodes;
    ghost var s := g.Abs();
    if id !in g.OptimizedTargets {
      return Err;
    }
    var target := g.OptimizedTargets[id];
    if target.Hash.Some? {
      AlreadyHashed(h, s, rank, id);
      return Ok(target.Hash.value);
    }
    g.SetHash(id, Some([]));
    StartVisiting(h, s, g.Abs(), rank, id);
    var ruleType := if target.RuleType in g.RuleTypeIDToString then g.RuleTypeIDToString[target.RuleType] else [];
    var hash: Text;
    if ruleType == SOURCE_FILE || ruleType == PACKAGE_GROUP {
      UnhashedLeaf(s, id);
      r := Err;
    } else if ruleType == GENERATED_FILE {
      r := GeneratedHash(g, h, id, s, rank);
    } else if target.HashWithoutDeps.None? {
      UnhashedLeaf(s, id);
      r := Err;
    } else {
      ghost var list;
      r, list := RuleBytes(g, h, id, target.HashWithoutDeps.value, s, rank);
      if r.Ok? {
        RuleDone(h, s, rank, id, target.HashWithoutDeps.value, list, r.value);
        r := Ok(h(r.value));
      }
    }
    if r.Err? {
      VisitFailed(h, s, g.Abs(), rank, id);
      return;
    }
    VisitDone(h, s, g.Abs(), rank, id, r.value);
    g.SetHash(id, Some(r.value));
  }

  lemma AlreadyHashed(h: Digest, s: State, rank: map<nat, nat>, id: nat)
    requires id in s.targets && s.targets[id].hash.Some?
    ensures Filled(s, s) && ComputedRight(h, s, s, rank, id)
  {
    hide Ready, Nodes;
  }

  // ---- Computing everything invalidated ----

  /** Nothing stands in the way of hashing an acyclic graph, and every hash it
      has is the full one. */
  ghost predicate Perfect(h: Digest, s: State, rank: map<nat, nat>) {
    && Ready(s) && Ranked(Nodes(s), rank)
    && forall x | x in s.targets && s.targets[x].hash.Some? :: HashIs(h, s, rank, x, s.targets[x].hash)
  }

  lemma PerfectIsSound(h: Digest, s: State, rank: map<nat, nat>, id: nat)
    requires Perfect(h, s, rank) && id in s.targets
    ensures Sound(h, s, rank, id)
  {
    hide Nodes, Ready;
  }

  lemma ComputingKeepsPerfect(h: Digest, s: State, s': State, rank: map<nat, nat>, id: nat)
    requires Perfect(h, s, rank) && Filled(s, s') && id in s.targets && ComputedRight(h, s, s', rank, id)
    ensures Perfect(h, s', rank)
  {
    hide Ready, Ranked, Nodes;
    PerfectIsSound(h, s, rank, id);
    ReadyStays(s, s');
    NodesStay(s, s');
    forall x | x in s'.targets && s'.targets[x].hash.Some? ensures HashIs(h, s', rank, x, s'.targets[x].hash) {
      assert HashIs(h, s, rank, x, s'.targets[x].hash);
    }
  }

  /** What the computing passes keep from the first call on. */
  ghost predicate Underway(h: Digest, s: State, s': State, rank: map<nat, nat>) {
    Filled(s, s') && (Perfect(h, s, rank) ==> Perfect(h, s', rank))
  }

  lemma UnderwayOn(h: Digest, s: State, s': State, s'': State, rank: map<nat, nat>, id: nat)
    requires Underway(h, s, s', rank) && Filled(s', s'')
    requires id in s'.targets ==> ComputedRight(h, s', s'', rank, id)
    requires id !in s'.targets ==> s'' == s'
    ensures Underway(h, s, s'', rank)
  {
    hide Perfect, ComputedRight;
    FillsTwice(s, s', s'');
    if Perfect(h, s, rank) && id in s'.targets {
      ComputingKeepsPerfect(h, s', s'', rank, id);
    }
  }

  lemma NotYetUnderway(h: Digest, s: State, rank: map<nat, nat>)
    ensures Underway(h, s, s, rank)
  {
    hide Perfect;
  }

  lemma UnderwayReady(h: Digest, s: State, s': State, rank: map<nat, nat>)
    requires Underway(h, s, s', rank)
    ensures s'.targets.Keys == s.targets.Keys && (Ready(s) ==> Ready(s'))
  {
    hide Perfect, Ready;
    if Ready(s) {
      ReadyStays(s, s');
    }
  }

  lemma HashesStay(s: State, s': State)
    requires Filled(s, s')
    ensures s'.targets.Keys == s.targets.Keys
    ensures forall i | i in s.targets && s.targets[i].hash.Some? :: s'.targets[i].hash.Some?
  {
  }

  const SEQUENTIAL_HASH_TARGETS := [Ascii("@io_bazel_rules_go//:go_context_data")]

  /** One step of a pass: `id` is hashed, and every earlier hash is kept. */
  method ComputeNext(g: OptimizedGraph, h: Digest, id: nat, ghost s: State, ghost rank: map<nat, nat>)
    returns (ok: bool)
    requires g.Keyed() && Underway(h, s, g.Abs(), rank)
    modifies g.OptimizedTargets.Values
    ensures Underway(h, s, g.Abs(), rank)
    ensures forall i | i in g.OptimizedTargets && old(g.OptimizedTargets[i].Hash).Some? ::
        g.OptimizedTargets[i].Hash.Some?
    ensures Ready(s) && id in s.targets ==> ok
    ensures ok ==> id in g.OptimizedTargets && g.OptimizedTargets[id].Hash.Some?
  {
    hide Filled, Perfect, Ready, ComputedRight;
    ghost var before := g.Abs();
    UnderwayReady(h, s, before, rank);
    var r := ComputeHashes(g, h, id, rank);
    HashesStay(before, g.Abs());
    assert forall i | i in g.OptimizedTargets :: g.OptimizedTargets[i].Value() == g.Abs().targets[i];
    if id !in g.OptimizedTargets {
      return false;
    }
    UnderwayOn(h, s, before, g.Abs(), rank, id);
    ok := r.Ok?;
  }

  /** Computes every invalidated hash: pinned targets first, then targets
      nothing depends on, then the rest, each pass in name order. */
  method ComputeInvalidatedHashes(g: OptimizedGraph, h: Digest, invalidated: set<nat>, ghost rank: map<nat, nat>)
    returns (ok: bool)
    requires g.Keyed()
    modifies g.OptimizedTargets.Values
    ensures Underway(h, old(g.Abs()), g.Abs(), rank)
    ensures Ready(old(g.Abs())) && invalidated <= old(g.OptimizedTargets).Keys ==> ok
    ensures ok ==> forall i | i in invalidated :: i in g.OptimizedTargets && g.OptimizedTargets[i].Hash.Some?
  {
    hide Filled, Perfect, Ready, Underway;
    ghost var s := g.Abs();
    NotYetUnderway(h, s, rank);
    var k := 0;
    while k < |SEQUENTIAL_HASH_TARGETS|
      invariant Underway(h, s, g.Abs(), rank)
    {
      var name := SEQUENTIAL_HASH_TARGETS[k];
      if name in g.TargetNameToID && g.TargetNameToID[name] in invalidated {
        ok := ComputeNext(g, h, g.TargetNameToID[name], s, rank);
        if !ok {
          return;
        }
      }
      k := k + 1;
    }
    var ids := SortIDs(g, invalidated);
    k := 0;
    while k < |ids|
      invariant Underway(h, s, g.Abs(), rank)
    {
      if ids[k] in g.OptimizedTargets && g.OptimizedTargets[ids[k]].ReverseDeps == {} {
        ok := ComputeNext(g, h, ids[k], s, rank);
        if !ok {
          return;
        }
      }
      k := k + 1;
    }
    k := 0;
    while k < |ids|
      invariant 0 <= k <= |ids|
      invariant Underway(h, s, g.Abs(), rank)
      invariant forall i | i in ids[..k] :: i in g.OptimizedTargets && g.OptimizedTargets[i].Hash.Some?
    {
      ok := ComputeNext(g, h, ids[k], s, rank);
      if !ok {
        return;
      }
      k := k + 1;
    }
    ok := true;
  }

  // ---- From good to good ----

  ghost predicate NoOrphans(s: State) {
    forall x | x in s.targets :: Complete(s, x)
  }

  lemma GoodIsReady(h: Digest, s: State, pending: set<nat>)
    requires Good(h, s, pending)
    ensures NoOrphans(s) ==> Ready(s)
  {
    hide Right, RuleTypesConsistent, Complete, Inverse;
    forall x | x in s.targets ensures s.targets[x].deps <= s.targets.Keys {
      EdgesInside(s.targets, x);
    }
  }

  /** The kept hashes of a good acyclic graph are full hashes. */
  lemma GoodIsPerfect(h: Digest, s: State, pending: set<nat>, rank: map<nat, nat>)
    requires Good(h, s, pending) && NoOrphans(s) && Ranked(Nodes(s), rank)
    ensures Perfect(h, s, rank)
  {
    GoodIsReady(h, s, pending);
    var g, hashes := Nodes(s), Hashes(s.targets);
    assert forall m | m in g && m in hashes :: HashedAt(h, g, hashes, m);
    hide Right, NoOrphans, Ready, NodeOf, Ranked, HashedAt, NamesConsistent, RuleTypesConsistent, Transposed;
    forall x | x in s.targets && s.targets[x].hash.Some? ensures HashIs(h, s, rank, x, s.targets[x].hash) {
      LocalHashesAreFull(h, g, rank, hashes, x);
    }
  }

  lemma FullIsRight(h: Digest, s: State, rank: map<nat, nat>, x: nat)
    requires Perfect(h, s, rank) && x in s.targets && forall y | y in s.targets :: s.targets[y].hash.Some?
    ensures Right(h, s, x)
  {
    var g, hashes := Nodes(s), Hashes(s.targets);
    assert Complete(s, x);
    assert hashes.Keys == g.Keys;
    forall y | y in g ensures hashes[y] == Hash(h, g, rank, y) {
      assert HashIs(h, s, rank, y, s.targets[y].hash);
    }
    hide NodeOf, Complete, Ready;
    FullHashesAreLocal(h, g, rank, hashes, x);
  }

  /** Once everything is hashed, an acyclic graph is good with nothing pending. */
  lemma PerfectIsGood(h: Digest, s: State, s': State, pending: set<nat>, rank: map<nat, nat>)
    requires Good(h, s, pending) && Filled(s, s') && Perfect(h, s', rank)
    requires forall i | i in pending :: i in s'.targets && s'.targets[i].hash.Some?
    ensures Good(h, s', {})
  {
    hide Right, Perfect, Typed, NamesConsistent, RuleTypesConsistent, Transposed, Nodes;
    StructureWithoutHashes(s, s');
    forall y | y in s'.targets ensures s'.targets[y].hash.Some? {
      if s.targets[y].hash.None? {
        assert y in pending;
      }
    }
    forall x | x in s'.targets ensures Right(h, s', x) && Typed(s', x) {
      FullIsRight(h, s', rank, x);
      RightIsTyped(h, s', x);
    }
  }

  lemma RightIsTyped(h: Digest, s: State, x: nat)
    requires x in s.targets && Right(h, s, x)
    ensures Typed(s, x)
  {
    hide HashedAt;
  }
}
