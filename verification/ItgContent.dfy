/** What the incremental graph says, free of its IDs: the entries by name, how
    each update changes them, and the hashes they determine. */
module ItgContent {
  import opened Wrappers
  import opened ByteStrings
  import opened Merkle
  import opened NameOrder
  import opened ItgState
  import opened ItgUpdate

  datatype Entry = Entry(ruleType: Text, hash: Option<Text>, own: Option<Text>, deps: set<Text>)

  type Content = map<Text, Entry>

  function NameItself(n: Text): Text { n }

  ghost function DepNames(s: State, deps: set<nat>): set<Text> {
    set d | d in deps :: s.Name(d)
  }

  /** A leaf's hash belongs to it; any other hash follows from the rest. */
  ghost function EntryOf(s: State, id: nat): Entry
    requires id in s.targets
  {
    var t := s.targets[id];
    Entry(s.TypeOf(id), if IsLeafType(s.TypeOf(id)) then t.hash else None, t.own, DepNames(s, t.deps))
  }

  ghost function ContentOf(s: State): Content {
    map n | n in s.nameToID && s.nameToID[n] in s.targets :: EntryOf(s, s.nameToID[n])
  }

  /** The content without `name`, which nothing depends on any more. */
  ghost function Without(c: Content, name: Text): Content {
    map n | n in c && n != name :: c[n].(deps := c[n].deps - {name})
  }

  ghost function NewEntry(t: NewTarget): Entry {
    Entry(t.ruleType, if IsLeafType(t.ruleType) then t.hash else None, t.own, set d | d in t.deps)
  }

  lemma InvalidationKeepsContent(s: State, ids: set<nat>)
    requires NamesConsistent(s) && Transposed(s.targets)
    requires forall x | x in s.targets :: Typed(s, x)
    requires forall x | x in ids && x in s.targets :: !IsLeafType(s.TypeOf(x))
    ensures ContentOf(Invalidated(s, ids)) == ContentOf(s)
  {
    var s' := Invalidated(s, ids);
    forall x | x in s.targets ensures EntryOf(s', x) == EntryOf(s, x) {
      InvalidatedKeeps(s, ids, x);
      if IsLeafType(s.TypeOf(x)) {
        LeavesKeepHashes(s, ids, x);
      }
      hide Cleared, Transposed, NamesConsistent, Typed;
      assert DepNames(s', s.targets[x].deps) == DepNames(s, s.targets[x].deps);
    }
    hide Cleared, Transposed, Typed, EntryOf;
  }

  lemma DepNamesWithout(s: State, s': State, deps: set<nat>, id: nat)
    requires NamesConsistent(s) && deps <= s.targets.Keys && id in s.targets
    requires forall d | d in deps && d != id :: s'.Name(d) == s.Name(d)
    ensures DepNames(s', deps - {id}) == DepNames(s, deps) - {s.Name(id)}
  {
    var here, there := DepNames(s', deps - {id}), DepNames(s, deps) - {s.Name(id)};
    forall n ensures n in here <==> n in there {
      if n in here {
        var d :| d in deps - {id} && s'.Name(d) == n;
        assert s.Name(d) != s.Name(id);
      }
      if n in there {
        var d :| d in deps && s.Name(d) == n;
        assert s'.Name(d) == n;
      }
    }
  }

  lemma RemovedEntry(s: State, id: nat, x: nat)
    requires NamesConsistent(s) && Transposed(s.targets) && id in s.targets && x in s.targets && x != id
    ensures EntryOf(WithoutTarget(s, id), x) == EntryOf(s, x).(deps := EntryOf(s, x).deps - {s.Name(id)})
  {
    var s' := WithoutTarget(s, id);
    RemovalPart(s, id, x);
    forall d | d in s.targets[x].deps && d != id ensures s'.Name(d) == s.Name(d) {
    }
    DepNamesWithout(s, s', s.targets[x].deps, id);
    hide Transposed, NamesConsistent, Unlinked;
  }

  lemma WithoutTargetContent(s: State, id: nat)
    requires NamesConsistent(s) && Transposed(s.targets) && id in s.targets
    ensures ContentOf(WithoutTarget(s, id)) == Without(ContentOf(s), s.Name(id))
  {
    hide Unlinked, Transposed, EntryOf;
    var s' := WithoutTarget(s, id);
    var here, there := ContentOf(s'), Without(ContentOf(s), s.Name(id));
    assert here.Keys == there.Keys by {
      RemovedNames(s, id);
    }
    forall n | n in here ensures here[n] == there[n] {
      RemovedEntry(s, id, s.nameToID[n]);
    }
  }

  lemma RemovedNames(s: State, id: nat)
    requires NamesConsistent(s) && id in s.targets
    ensures ContentOf(WithoutTarget(s, id)).Keys == Without(ContentOf(s), s.Name(id)).Keys
  {
    hide Unlinked, EntryOf;
    var here, there := ContentOf(WithoutTarget(s, id)), Without(ContentOf(s), s.Name(id));
    forall n ensures n in here <==> n in there {
    }
  }

  /** Removing a target removes its entry and every mention of it. */
  lemma RemovalChangesContent(h: Digest, s: State, id: nat, pending: set<nat>)
    requires Good(h, s, pending) && id in s.targets
    ensures ContentOf(Removed(s, id)) == Without(ContentOf(s), s.Name(id))
  {
    hide Right, Typed, NamesConsistent, RuleTypesConsistent, Unlinked, Cleared, WithoutTarget, ContentOf, Without,
      Transposed;
    RemovalIsRepairable(h, s, id, pending);
    InvalidationKeepsContent(WithoutTarget(s, id), s.targets[id].reverseDeps);
    WithoutTargetContent(s, id);
  }

  lemma UpsertedOther(s: State, t: NewTarget, x: nat)
    requires NamesConsistent(s) && RuleTypesConsistent(s) && Transposed(s.targets) && Known(s, t.deps)
    requires x in s.targets && x != IDFor(s, t.name)
    ensures x in WithTarget(s, t).targets && EntryOf(WithTarget(s, t), x) == EntryOf(s, x)
  {
    var s' := WithTarget(s, t);
    UpsertPart(s, t, x);
    forall d | d in s.targets[x].deps ensures s'.Name(d) == s.Name(d) {
      if d == IDFor(s, t.name) {
        UpsertedPart(s, t);
        assert d in s.targets;
      } else {
        UpsertPart(s, t, d);
      }
      hide Stored, Relinked;
    }
    hide WithTarget, NamesConsistent, RuleTypesConsistent, Transposed;
    assert DepNames(s', s.targets[x].deps) == DepNames(s, s.targets[x].deps);
  }

  lemma UpsertedEntry(s: State, t: NewTarget)
    requires NamesConsistent(s) && RuleTypesConsistent(s) && Transposed(s.targets) && Known(s, t.deps)
    ensures IDFor(s, t.name) in WithTarget(s, t).targets && EntryOf(WithTarget(s, t), IDFor(s, t.name)) == NewEntry(t)
  {
    var s', id := WithTarget(s, t), IDFor(s, t.name);
    UpsertedPart(s, t);
    var here, there := DepNames(s', DepIDs(s, t.deps)), set d | d in t.deps;
    forall d | d in t.deps ensures s'.Name(s.nameToID[d]) == d {
      if s.nameToID[d] != id {
        UpsertPart(s, t, s.nameToID[d]);
      }
    }
    hide WithTarget, NamesConsistent, RuleTypesConsistent, Transposed, IDFor;
    forall n ensures n in here <==> n in there {
      if n in there {
        assert s.nameToID[n] in DepIDs(s, t.deps);
      }
    }
  }

  lemma WithTargetNames(s: State, t: NewTarget)
    requires NamesConsistent(s) && Known(s, t.deps)
    ensures forall n :: n in ContentOf(WithTarget(s, t)) <==> n in ContentOf(s) || n == t.name
    ensures forall n | n in ContentOf(s) && n != t.name ::
        WithTarget(s, t).nameToID[n] == s.nameToID[n] != IDFor(s, t.name)
    ensures t.name in ContentOf(WithTarget(s, t)) && WithTarget(s, t).nameToID[t.name] == IDFor(s, t.name)
  {
    hide Relinked, Stored, EntryOf, DepIDs, Known;
  }

  lemma WithTargetAt(s: State, t: NewTarget, n: Text)
    requires NamesConsistent(s) && RuleTypesConsistent(s) && Transposed(s.targets) && Known(s, t.deps)
    requires n in ContentOf(s) || n == t.name
    ensures n in ContentOf(WithTarget(s, t)) && ContentOf(WithTarget(s, t))[n] == if n == t.name then NewEntry(t)
        else ContentOf(s)[n]
  {
    WithTargetNames(s, t);
    hide WithTarget, IDFor, Transposed, EntryOf, NamesConsistent, RuleTypesConsistent, NewEntry, Known;
    if n == t.name {
      UpsertedEntry(s, t);
    } else {
      UpsertedOther(s, t, s.nameToID[n]);
    }
  }

  lemma WithTargetContent(s: State, t: NewTarget)
    requires NamesConsistent(s) && RuleTypesConsistent(s) && Transposed(s.targets) && Known(s, t.deps)
    ensures ContentOf(WithTarget(s, t)) == ContentOf(s)[t.name := NewEntry(t)]
  {
    hide *;
    WithTargetNames(s, t);
    var here, there := ContentOf(WithTarget(s, t)), ContentOf(s)[t.name := NewEntry(t)];
    forall n | n in there ensures n in here && here[n] == there[n] {
      WithTargetAt(s, t, n);
    }
    assert here.Keys == there.Keys;
  }

  /** Upserting a target writes its entry and no other. */
  lemma UpsertChangesContent(h: Digest, s: State, t: NewTarget, pending: set<nat>)
    requires Good(h, s, pending) && Known(s, t.deps) && FromQuery(t)
    ensures ContentOf(Upserted(s, t)) == ContentOf(s)[t.name := NewEntry(t)]
  {
    var s', id := WithTarget(s, t), IDFor(s, t.name);
    UpsertIsRepairable(h, s, t, pending);
    assert id in s'.targets && s'.targets[id].reverseDeps == Stored(s, t).reverseDeps;
    hide Right, Typed, NamesConsistent, RuleTypesConsistent, Cleared, WithTarget, Stored, ContentOf, Transposed,
      NewEntry, Known, FromQuery, IDFor;
    forall x | x in Stored(s, t).reverseDeps && x in s'.targets ensures !IsLeafType(s'.TypeOf(x)) {
      TypedDependent(s', id, x);
    }
    InvalidationKeepsContent(s', Stored(s, t).reverseDeps);
    WithTargetContent(s, t);
  }

  // ---- The full hash, by name ----

  ghost function SingleName(deps: set<Text>): (d: Text)
    ensures deps != {} ==> d in deps
  {
    if d :| d in deps then d else []
  }

  ghost function NamedNode(e: Entry): Node<Text> {
    if IsLeafType(e.ruleType) then Leaf(if e.hash.Some? then e.hash.value else [])
    else if e.ruleType == GENERATED_FILE then Alias(SingleName(e.deps))
    else Rule(if e.own.Some? then e.own.value else [], Ordered(NameItself, e.deps))
  }

  ghost function NamedNodes(c: Content): map<Text, Node<Text>> {
    map n | n in c :: NamedNode(c[n])
  }

  /** What makes the graph's value readable as a Merkle graph. */
  ghost predicate Readable(s: State) {
    && NamesConsistent(s) && Transposed(s.targets)
    && forall id | id in s.targets :: Complete(s, id)
  }

  lemma DistinctlyNamed(s: State, deps: set<nat>)
    requires NamesConsistent(s) && deps <= s.targets.Keys
    ensures DistinctNames(s.Name, deps)
  {
  }

  lemma RulesRename(s: State, deps: set<nat>)
    requires NamesConsistent(s) && deps <= s.targets.Keys
    ensures InOrder(s.Name, deps, Ordered(s.Name, deps))
    ensures var list := Ordered(s.Name, deps);
      Ordered(NameItself, DepNames(s, deps)) == seq(|list|, i requires 0 <= i < |list| => s.Name(list[i]))
  {
    DistinctlyNamed(s, deps);
    OrderExists(s.Name, deps);
    var list := Ordered(s.Name, deps);
    var names := seq(|list|, i requires 0 <= i < |list| => s.Name(list[i]));
    OrderMaps(s.Name, NameItself, s.Name, deps, DepNames(s, deps), list, names);
    OrderedIs(NameItself, DepNames(s, deps), names);
  }

  lemma NodeRenames(s: State, id: nat)
    requires Readable(s) && id in s.targets
    ensures forall d | d in DepsOf(NodeOf(s, id)) :: d in s.idToName
    ensures NamedNode(EntryOf(s, id)) == RenameNode(NodeOf(s, id), s.idToName)
  {
    var t := s.targets[id];
    assert Complete(s, id);
    assert t.deps <= s.targets.Keys;
    NodeDeps(s, id);
    if IsLeafType(s.TypeOf(id)) {
    } else if s.TypeOf(id) == GENERATED_FILE {
      var d := SingleDep(t.deps);
      assert s.Name(d) in DepNames(s, t.deps);
      SmallSet(t.deps);
    } else {
      RulesRename(s, t.deps);
      var list := Ordered(s.Name, t.deps);
      assert forall d :: d in list <==> d in t.deps;
      var renamed := RenameNode(NodeOf(s, id), s.idToName).deps;
      forall i | 0 <= i < |list| ensures renamed[i] == s.Name(list[i]) {
        assert list[i] in list;
      }
      hide Ordered, NamesConsistent, Transposed;
    }
  }

  lemma NodeClosed(s: State, n: nat, d: nat)
    requires Readable(s) && n in s.targets && d in DepsOf(NodeOf(s, n))
    ensures d in s.targets
  {
    assert Complete(s, n);
    EdgesInside(s.targets, n);
    hide Transposed, Complete, NodeOf;
    NodeDeps(s, n);
  }

  lemma NodesClosed(s: State)
    requires Readable(s)
    ensures Closed(Nodes(s))
  {
    forall n, d | n in Nodes(s) && d in DepsOf(NodeOf(s, n)) ensures d in s.targets {
      NodeClosed(s, n, d);
    }
    hide NodeOf, Readable;
  }

  lemma NamesRename(s: State)
    requires Readable(s)
    ensures RenamedBy(Nodes(s), NamedNodes(ContentOf(s)), s.idToName)
  {
    hide NamedNode, NodeOf, EntryOf, Transposed, Complete, RenameNode;
    NodesClosed(s);
    var g, g' := Nodes(s), NamedNodes(ContentOf(s));
    forall n | n in g
      ensures forall d | d in DepsOf(g[n]) :: d in s.idToName
      ensures s.idToName[n] in g' && g'[s.idToName[n]] == RenameNode(g[n], s.idToName)
    {
      NodeRenames(s, n);
    }
  }

  /** An order of the names that proves the named graph acyclic does so for the
      graph by ID. */
  ghost function RankByID(s: State, rank: map<Text, nat>): map<nat, nat>
    requires s.idToName.Values <= rank.Keys
  {
    map id | id in s.idToName :: rank[s.idToName[id]]
  }

  lemma NameInContent(s: State, id: nat)
    requires NamesConsistent(s) && id in s.targets
    ensures id in s.idToName && s.idToName[id] == s.Name(id) && s.Name(id) in ContentOf(s)
    ensures s.nameToID[s.Name(id)] == id
  {
    hide EntryOf;
  }

  lemma EdgeRanks(s: State, rank: map<Text, nat>, n: nat, d: nat)
    requires Readable(s) && Ranked(NamedNodes(ContentOf(s)), rank) && n in s.targets && d in DepsOf(NodeOf(s, n))
    ensures d in s.targets && s.Name(n) in rank && s.Name(d) in rank && rank[s.Name(d)] < rank[s.Name(n)]
  {
    NodeClosed(s, n, d);
    NodeRenames(s, n);
    NameInContent(s, n);
    NameInContent(s, d);
    RenamedDep(NodeOf(s, n), s.idToName, d);
    hide NodeOf, EntryOf, NamedNode, RenameNode, DepsOf, Transposed, NamesConsistent, Complete;
    var g' := NamedNodes(ContentOf(s));
    assert s.Name(d) in DepsOf(g'[s.Name(n)]);
  }

  lemma RanksByID(s: State, rank: map<Text, nat>)
    requires Readable(s) && Ranked(NamedNodes(ContentOf(s)), rank)
    ensures s.idToName.Values <= rank.Keys && Ranked(Nodes(s), RankByID(s, rank))
  {
    hide NodeOf, NamedNode, ContentOf, Inverse, Transposed, Complete, DepsOf;
    forall id | id in s.idToName ensures s.idToName[id] in rank {
      NameInContent(s, id);
    }
    forall n, d | n in s.targets && d in DepsOf(NodeOf(s, n))
      ensures d in s.targets && RankByID(s, rank)[d] < RankByID(s, rank)[n]
    {
      EdgeRanks(s, rank, n, d);
    }
  }

  lemma RenamedDep<V(!new), W(!new)>(node: Node<V>, f: map<V, W>, d: V)
    requires forall x | x in DepsOf(node) :: x in f
    requires d in DepsOf(node)
    ensures f[d] in DepsOf(RenameNode(node, f))
  {
    if node.Rule? {
      var i :| 0 <= i < |node.deps| && node.deps[i] == d;
      assert RenameNode(node, f).deps[i] == f[d];
    }
  }

  /** Every hash of a good graph with nothing left to recompute is the full hash
      of its target in the content, whatever IDs and updates led there. */
  lemma HashesFollowContent(h: Digest, s: State, id: nat)
    requires Good(h, s, {}) && Acyclic(NamedNodes(ContentOf(s))) && id in s.targets
    ensures s.Name(id) in ContentOf(s)
    ensures s.targets[id].hash == Some(FullHash(h, NamedNodes(ContentOf(s)), s.Name(id)))
  {
    var g, g' := Nodes(s), NamedNodes(ContentOf(s));
    var rank := RankOf(g');
    forall x | x in s.targets ensures s.targets[x].hash.Some? && Right(h, s, x) {
    }
    assert Readable(s);
    RanksByID(s, rank);
    NamesRename(s);
    assert forall m | m in g && m in Hashes(s.targets) :: HashedAt(h, g, Hashes(s.targets), m);
    hide NamedNode, NodeOf, Transposed, EntryOf, Right, Readable, HashedAt, Ranked, RenamedBy;
    LocalHashesAreFull(h, g, RankByID(s, rank), Hashes(s.targets), id);
    RenamingKeepsHash(h, g, g', s.idToName, RankByID(s, rank), rank, id);
  }

  /** Incremental equals from scratch: two graphs with the same content have the
      same hashes, however each was reached. */
  lemma IncrementalEqualsFromScratch(h: Digest, s: State, s': State, name: Text)
    requires Good(h, s, {}) && Good(h, s', {}) && ContentOf(s) == ContentOf(s')
    requires Acyclic(NamedNodes(ContentOf(s)))
    requires name in s.nameToID
    ensures name in s'.nameToID && s.nameToID[name] in s.targets && s'.nameToID[name] in s'.targets
    ensures s.targets[s.nameToID[name]].hash == s'.targets[s'.nameToID[name]].hash
  {
    assert name in ContentOf(s);
    HashesFollowContent(h, s, s.nameToID[name]);
    HashesFollowContent(h, s', s'.nameToID[name]);
  }
}
