/** Full hashing of a target map: the recursive hasher, which marks targets in
    place and survives cycles. */
module FullHasher {
  import opened Wrappers
  import opened ByteStrings
  import opened Merkle
  import opened ItgState
  import RuleEncoding

  /** What the hasher knows of a target: the stored own hash may be missing. */
  datatype Info = Info(ruleType: Text, rule: Option<RuleEncoding.BazelRule>, own: Text, deps: seq<Text>,
                       hash: Option<Text>, root: bool)

  /** The outside world: the digest, the hashes of source files by name, and
      which labels name another repository. */
  datatype World = World(digest: Digest, source: Text -> Result<Text>, elsewhere: Text -> bool)

  /** The rule hash kept from the query, or computed when it is missing. */
  function OwnHash(w: World, t: Info): Text {
    if t.own != [] then t.own else w.digest(RuleEncoding.RuleBytes(t.rule))
  }

  function SourceLeaf(w: World, name: Text): Node<Text> {
    Leaf(if w.source(name).Ok? then w.source(name).value else [])
  }

  /** A target as a Merkle node. */
  function NodeFor(w: World, name: Text, t: Info): Node<Text> {
    if t.ruleType == SOURCE_FILE then SourceLeaf(w, name)
    else if t.ruleType == PACKAGE_GROUP then Leaf(w.digest(name))
    else if t.ruleType == GENERATED_FILE && t.deps != [] then Alias(t.deps[0])
    else Rule(OwnHash(w, t), t.deps)
  }

  type Infos = map<Text, Info>

  /** `g` is the Merkle graph of `s`, with a source file for every dependency
      that is missing from it. */
  ghost predicate Pictures(w: World, g: map<Text, Node<Text>>, s: Infos) {
    && s.Keys <= g.Keys && Closed(g)
    && forall n | n in g :: g[n] == if n in s then NodeFor(w, n, s[n]) else SourceLeaf(w, n)
  }

  /** Hashes were filled in and missing source files added; nothing else
      changed. */
  ghost predicate Grows(w: World, s: Infos, s': Infos) {
    && (forall n | n in s ::
          n in s' && s'[n] == s[n].(hash := s'[n].hash, own := s'[n].own) &&
          (s[n].hash.Some? || s'[n].hash.None? ==> s'[n] == s[n]))
    && (forall n | n in s :: NodeFor(w, n, s'[n]) == NodeFor(w, n, s[n]))
    && (forall n | n in s' && n !in s :: s'[n].ruleType == SOURCE_FILE && s'[n].deps == [] && s'[n].hash.Some?)
  }

  ghost predicate HashIs(w: World, g: map<Text, Node<Text>>, rank: map<Text, nat>, n: Text, hash: Option<Text>) {
    Ranked(g, rank) && n in g && hash == Some(Hash(w.digest, g, rank, n))
  }

  /** What makes the hash of `name` come out right. */
  ghost predicate Sound(w: World, g: map<Text, Node<Text>>, s: Infos, rank: map<Text, nat>, name: Text) {
    && Pictures(w, g, s) && Ranked(g, rank) && name in g
    && forall n | n in s && s[n].hash.Some? && rank[n] <= rank[name] :: HashIs(w, g, rank, n, s[n].hash)
  }

  /** Every hash set between `s` and `s'`, but perhaps `but`'s, is right. */
  ghost predicate SetsRight(w: World, g: map<Text, Node<Text>>, s: Infos, s': Infos, rank: map<Text, nat>,
                            but: set<Text>) {
    forall n | n in s' && n !in but && s'[n].hash.Some? && (n !in s || s[n].hash.None?) ::
        HashIs(w, g, rank, n, s'[n].hash)
  }

  ghost predicate HashedRight(w: World, g: map<Text, Node<Text>>, s: Infos, s': Infos, rank: map<Text, nat>,
                              name: Text) {
    Sound(w, g, s, rank, name) ==>
      name in s' && HashIs(w, g, rank, name, s'[name].hash) && SetsRight(w, g, s, s', rank, {})
  }

  /** Nothing stands in the way of hashing: every name that has to be read from
      outside can be, and generated files name their rule. */
  ghost predicate Readable(w: World, g: map<Text, Node<Text>>, s: Infos) {
    && s.Keys <= g.Keys
    && (forall n | n in g && (n !in s || s[n].ruleType == SOURCE_FILE) ::
          w.source(n).Ok? && (n !in s ==> !w.elsewhere(n)))
    && (forall n, d | n in s && d in s[n].deps :: d in g)
    && (forall n | n in s && s[n].ruleType == GENERATED_FILE :: s[n].deps != [])
  }

  ghost function Unhashed(g: map<Text, Node<Text>>, s: Infos): set<Text> {
    set n | n in g && (n !in s || s[n].hash.None?)
  }

  /** The dependencies the hasher walks to. */
  function Walked(t: Info): seq<Text> {
    if IsLeafType(t.ruleType) then []
    else if t.ruleType == GENERATED_FILE then (if t.deps == [] then [] else [t.deps[0]])
    else t.deps
  }

  ghost predicate HaveHashes(s: Infos, names: seq<Text>) {
    forall d | d in names :: d in s && s[d].hash.Some?
  }

  /** What is stored beside the hash: a rule's own hash, nothing for the rest. */
  function OwnToStore(w: World, t: Info): Text {
    if IsLeafType(t.ruleType) || t.ruleType == GENERATED_FILE then [] else OwnHash(w, t)
  }

  /** A source file that was hashed since `s` could be read, and is not another
      repository's if it was missing; its own hash is stored. */
  ghost predicate WasRead(w: World, s: Infos, n: Text, t: Info) {
    && (t.ruleType == SOURCE_FILE ==> w.source(n).Ok? && (n !in s ==> !w.elsewhere(n)))
    && t.own == if n in s then OwnToStore(w, s[n]) else []
  }

  /** Every target hashed between `s` and `s'`, but perhaps `but`, had all it
      needs hashed, and was read if it is a source file. */
  ghost predicate ClosedSince(w: World, s: Infos, s': Infos, but: set<Text>) {
    forall n | n in s' && n !in but && s'[n].hash.Some? && (n !in s || s[n].hash.None?) ::
        HaveHashes(s', Walked(s'[n])) && WasRead(w, s, n, s'[n])
  }

  /** `name` is being visited: its hash is empty for now, and every other hash
      set since `s` is right. */
  ghost predicate Visiting(w: World, g: map<Text, Node<Text>>, s: Infos, s': Infos, rank: map<Text, nat>, name: Text) {
    && Grows(w, s, s') && name in s' && s'[name].hash == Some([]) && (name in s ==> s[name].hash.None?)
    && (Sound(w, g, s, rank, name) ==> SetsRight(w, g, s, s', rank, {name}))
    && ClosedSince(w, s, s', {name}) && (name !in s ==> !w.elsewhere(name))
    && s'[name].own == if name in s then s[name].own else []
  }

  lemma GrowsTwice(w: World, s: Infos, s': Infos, s'': Infos)
    requires Grows(w, s, s') && Grows(w, s', s'')
    ensures Grows(w, s, s'')
  {
    hide NodeFor;
  }

  lemma PictureStays(w: World, g: map<Text, Node<Text>>, s: Infos, s': Infos)
    requires Pictures(w, g, s) && Grows(w, s, s') && s'.Keys <= g.Keys
    ensures Pictures(w, g, s')
  {
  }

  lemma ReadableStays(w: World, g: map<Text, Node<Text>>, s: Infos, s': Infos)
    requires Readable(w, g, s) && Grows(w, s, s') && s'.Keys <= g.Keys
    ensures Readable(w, g, s')
  {
    hide NodeFor;
  }

  lemma GrowingShrinks(w: World, g: map<Text, Node<Text>>, s: Infos, s': Infos)
    requires Grows(w, s, s')
    ensures Unhashed(g, s') <= Unhashed(g, s) && s.Keys <= s'.Keys
  {
    hide NodeFor;
  }

  lemma SoundDep(w: World, g: map<Text, Node<Text>>, s: Infos, s': Infos, rank: map<Text, nat>, name: Text, d: Text)
    requires Sound(w, g, s, rank, name) && Grows(w, s, s') && s'.Keys <= g.Keys && SetsRight(w, g, s, s', rank, {name})
    requires d in DepsOf(g[name])
    ensures Sound(w, g, s', rank, d) && rank[d] < rank[name]
  {
    hide NodeFor, HashIs, Closed, DepsOf;
    PictureStays(w, g, s, s');
  }

  lemma SetsCompose(w: World, g: map<Text, Node<Text>>, s: Infos, s': Infos, s'': Infos, rank: map<Text, nat>,
                    name: Text)
    requires Grows(w, s, s') && Grows(w, s', s'') && SetsRight(w, g, s, s', rank, {name})
    requires SetsRight(w, g, s', s'', rank, {})
    ensures SetsRight(w, g, s, s'', rank, {name})
  {
    hide NodeFor, HashIs;
  }

  lemma ClosedCompose(w: World, s: Infos, s': Infos, s'': Infos, name: Text)
    requires Grows(w, s, s') && Grows(w, s', s'') && ClosedSince(w, s, s', {name}) && ClosedSince(w, s', s'', {})
    ensures ClosedSince(w, s, s'', {name})
  {
    hide NodeFor;
    forall n | n in s'' && n != name && s''[n].hash.Some? && (n !in s || s[n].hash.None?)
      ensures HaveHashes(s'', Walked(s''[n])) && WasRead(w, s, n, s''[n])
    {
      if n in s' && s'[n].hash.Some? {
        assert HaveHashes(s', Walked(s'[n])) && s''[n] == s'[n];
      }
    }
  }

  lemma HashedStay(w: World, s: Infos, s': Infos, names: seq<Text>)
    requires HaveHashes(s, names) && Grows(w, s, s')
    ensures HaveHashes(s', names)
  {
    hide NodeFor;
  }

  lemma VisitedDep(w: World, g: map<Text, Node<Text>>, s: Infos, s': Infos, s'': Infos, rank: map<Text, nat>,
                   name: Text, d: Text)
    requires Visiting(w, g, s, s', rank, name) && Grows(w, s', s'') && s'.Keys <= g.Keys && d in g && name in g
    requires Pictures(w, g, s) ==> d in DepsOf(g[name])
    requires HashedRight(w, g, s', s'', rank, d) && ClosedSince(w, s', s'', {})
    ensures Visiting(w, g, s, s'', rank, name)
    ensures Sound(w, g, s, rank, name) ==>
      d in s'' && HashIs(w, g, rank, d, s''[d].hash) && d in rank && rank[d] < rank[name]
  {
    hide NodeFor, HashIs, SetsRight, Pictures, DepsOf, ClosedSince;
    GrowsTwice(w, s, s', s'');
    ClosedCompose(w, s, s', s'', name);
    if Sound(w, g, s, rank, name) {
      SoundDep(w, g, s, s', rank, name, d);
      SetsCompose(w, g, s, s', s'', rank, name);
    }
  }

  // ---- Steps of a visit ----

  ghost predicate DepsIn(g: map<Text, Node<Text>>, s: Infos) {
    s.Keys <= g.Keys && forall n, d | n in s && d in s[n].deps :: d in g
  }

  /** What the next dependency needs of the hashes set since `s`. */
  lemma NextDep(w: World, g: map<Text, Node<Text>>, s: Infos, s': Infos, name: Text)
    requires Grows(w, s, s') && s'.Keys <= g.Keys && name in s && s[name].hash.Some?
    ensures Unhashed(g, s') <= Unhashed(g, s) && name in s' && s'[name] == s[name]
    ensures Readable(w, g, s) ==> Readable(w, g, s')
  {
    hide Grows, Readable, Unhashed;
    GrowingShrinks(w, g, s, s');
    KeptNode(w, s, s', name);
    if Readable(w, g, s) {
      ReadableStays(w, g, s, s');
    }
  }

  lemma NamesIn(g: map<Text, Node<Text>>, s: Infos)
    requires DepsIn(g, s)
    ensures s.Keys <= g.Keys
  {
  }

  lemma DepsStayIn(w: World, g: map<Text, Node<Text>>, s: Infos, s': Infos)
    requires DepsIn(g, s) && Grows(w, s, s') && s'.Keys <= g.Keys
    ensures DepsIn(g, s')
  {
    hide NodeFor;
  }

  const MISSING := Info(SOURCE_FILE, None, [], [], None, false)

  lemma StartVisiting(w: World, g: map<Text, Node<Text>>, s: Infos, s': Infos, rank: map<Text, nat>, name: Text)
    requires name in g && (if name in s then s[name].hash.None? else !w.elsewhere(name))
    requires s' == s[name := (if name in s then s[name] else MISSING).(hash := Some([]))]
    ensures Visiting(w, g, s, s', rank, name)
    ensures name in Unhashed(g, s) && Unhashed(g, s') == Unhashed(g, s) - {name}
  {
    hide Sound, HashIs, Grows, SourceLeaf, NodeFor;
    StartGrows(w, s, s', name);
  }

  lemma StartGrows(w: World, s: Infos, s': Infos, name: Text)
    requires name in s ==> s[name].hash.None?
    requires s' == s[name := (if name in s then s[name] else MISSING).(hash := Some([]))]
    ensures Grows(w, s, s')
  {
  }

  lemma VisitDone(w: World, g: map<Text, Node<Text>>, s: Infos, s': Infos, rank: map<Text, nat>, name: Text, hash: Text,
                  own: Text)
    requires Visiting(w, g, s, s', rank, name)
    requires NodeFor(w, name, s'[name].(own := own)) == NodeFor(w, name, s'[name])
    requires Sound(w, g, s, rank, name) ==> HashIs(w, g, rank, name, Some(hash))
    requires HaveHashes(s', Walked(s'[name])) && (s'[name].ruleType == SOURCE_FILE ==> w.source(name).Ok?)
    requires own == OwnToStore(w, s'[name])
    ensures var s'' := s'[name := s'[name].(hash := Some(hash), own := own)];
      Grows(w, s, s'') && HashedRight(w, g, s, s'', rank, name) && ClosedSince(w, s, s'', {})
  {
    hide Sound, HashIs, NodeFor, SourceLeaf, ClosedSince, HaveHashes, Walked, OwnToStore, OwnHash;
    NodeIgnoresHash(w, name, s'[name].(own := own), Some(hash));
    OwnOfVisited(w, g, s, s', rank, name);
    DoneIsClosed(w, s, s', name, hash, own);
  }

  /** A target being visited still has what it was given. */
  lemma OwnOfVisited(w: World, g: map<Text, Node<Text>>, s: Infos, s': Infos, rank: map<Text, nat>, name: Text)
    requires Visiting(w, g, s, s', rank, name)
    ensures OwnToStore(w, s'[name]) == if name in s then OwnToStore(w, s[name]) else []
  {
    hide Sound, SetsRight, ClosedSince, NodeFor;
  }

  lemma DoneIsClosed(w: World, s: Infos, s': Infos, name: Text, hash: Text, own: Text)
    requires name in s' && ClosedSince(w, s, s', {name}) && HaveHashes(s', Walked(s'[name]))
    requires WasRead(w, s, name, s'[name].(own := own))
    ensures ClosedSince(w, s, s'[name := s'[name].(hash := Some(hash), own := own)], {})
  {
    var s'' := s'[name := s'[name].(hash := Some(hash), own := own)];
    forall n | n in s'' && s''[n].hash.Some? && (n !in s || s[n].hash.None?)
      ensures HaveHashes(s'', Walked(s''[n])) && WasRead(w, s, n, s''[n])
    {
      assert HaveHashes(s', Walked(s'[n]));
    }
  }

  lemma NodeIgnoresHash(w: World, name: Text, t: Info, hash: Option<Text>)
    ensures NodeFor(w, name, t.(hash := hash)) == NodeFor(w, name, t)
  {
  }

  lemma OwnKeepsNode(w: World, name: Text, t: Info)
    ensures NodeFor(w, name, t.(own := OwnHash(w, t))) == NodeFor(w, name, t)
    ensures IsLeafType(t.ruleType) || (t.ruleType == GENERATED_FILE && t.deps != []) ==>
      NodeFor(w, name, t.(own := [])) == NodeFor(w, name, t)
  {
  }

  /** A visited leaf. */
  lemma LeafHash(w: World, g: map<Text, Node<Text>>, s: Infos, s': Infos, rank: map<Text, nat>, name: Text, hash: Text)
    requires Visiting(w, g, s, s', rank, name)
    requires if s'[name].ruleType == SOURCE_FILE then w.source(name) == Ok(hash)
             else s'[name].ruleType == PACKAGE_GROUP && hash == w.digest(name)
    ensures Sound(w, g, s, rank, name) ==> HashIs(w, g, rank, name, Some(hash))
  {
    hide OwnHash, Ranked;
  }

  lemma AliasHash(w: World, g: map<Text, Node<Text>>, s: Infos, s': Infos, s'': Infos, rank: map<Text, nat>, name: Text,
                  d: Text, hash: Text)
    requires Visiting(w, g, s, s', rank, name) && Grows(w, s', s'') && s'.Keys <= g.Keys && d in g && name in g
    requires s'[name].ruleType == GENERATED_FILE && s'[name].deps != [] && d == s'[name].deps[0]
    requires HashedRight(w, g, s', s'', rank, d) && ClosedSince(w, s', s'', {}) && d in s'' && s''[d].hash == Some(hash)
    ensures Visiting(w, g, s, s'', rank, name)
    ensures Sound(w, g, s, rank, name) ==> HashIs(w, g, rank, name, Some(hash))
  {
    hide SetsRight, HashedRight, Ranked;
    if Pictures(w, g, s) {
      VisitedNode(w, g, s, s', rank, name);
    }
    VisitedDep(w, g, s, s', s'', rank, name, d);
  }

  /** The node of a visited target that was stored before. */
  lemma VisitedNode(w: World, g: map<Text, Node<Text>>, s: Infos, s': Infos, rank: map<Text, nat>, name: Text)
    requires Visiting(w, g, s, s', rank, name) && Pictures(w, g, s) && name in g && s'[name].ruleType != SOURCE_FILE
    ensures name in s && g[name] == NodeFor(w, name, s'[name]) && s[name].deps == s'[name].deps
    ensures s[name].ruleType == s'[name].ruleType
  {
    hide NodeFor, Sound;
  }

  /** The bytes hashed so far for rule `name`. */
  ghost predicate Accumulated(w: World, g: map<Text, Node<Text>>, s: Infos, rank: map<Text, nat>, name: Text, own: Text,
                              list: seq<Text>, bytes: Text) {
    Sound(w, g, s, rank, name) ==> name in rank && BytesOf(w.digest, g, rank, rank[name], own, list, bytes)
  }

  lemma AccumulatedNext(w: World, g: map<Text, Node<Text>>, s: Infos, rank: map<Text, nat>, name: Text, own: Text,
                        list: seq<Text>, i: nat, bytes: Text, dephash: Text)
    requires i < |list| && Accumulated(w, g, s, rank, name, own, list[..i], bytes)
    requires Sound(w, g, s, rank, name) ==>
      HashIs(w, g, rank, list[i], Some(dephash)) && list[i] in rank && rank[list[i]] < rank[name]
    ensures Accumulated(w, g, s, rank, name, own, list[..i + 1], bytes + dephash)
  {
    hide Sound, Hash, BytesOf;
    if Sound(w, g, s, rank, name) {
      BytesOneMore(w.digest, g, rank, rank[name], own, list[..i], bytes, list[i], dephash);
      assert list[..i + 1] == list[..i] + [list[i]];
    }
  }

  lemma NothingAccumulated(w: World, g: map<Text, Node<Text>>, s: Infos, rank: map<Text, nat>, name: Text, own: Text)
    ensures Accumulated(w, g, s, rank, name, own, [], own)
  {
    hide Pictures;
  }

  lemma NothingMissing(s: Infos)
    ensures HaveHashes(s, [])
  {
  }

  lemma RuleHashed(w: World, g: map<Text, Node<Text>>, s: Infos, s': Infos, rank: map<Text, nat>, name: Text,
                   bytes: Text)
    requires Visiting(w, g, s, s', rank, name) && name in g && !IsLeafType(s'[name].ruleType)
    requires s'[name].ruleType != GENERATED_FILE
    requires Accumulated(w, g, s, rank, name, OwnHash(w, s'[name]), s'[name].deps, bytes)
    ensures Sound(w, g, s, rank, name) ==> HashIs(w, g, rank, name, Some(w.digest(bytes)))
  {
    hide SetsRight, OwnHash, Ranked;
    if Sound(w, g, s, rank, name) {
      VisitedNode(w, g, s, s', rank, name);
    }
  }

  lemma GrowsItself(w: World, s: Infos)
    ensures Grows(w, s, s)
  {
    hide NodeFor;
  }

  lemma AlreadyHashed(w: World, g: map<Text, Node<Text>>, s: Infos, rank: map<Text, nat>, name: Text)
    requires name in s && s[name].hash.Some?
    ensures HashedRight(w, g, s, s, rank, name) && ClosedSince(w, s, s, {})
  {
    hide Pictures, HashIs;
  }

  lemma VisitingGrows(w: World, g: map<Text, Node<Text>>, s: Infos, s': Infos, rank: map<Text, nat>, name: Text)
    requires Visiting(w, g, s, s', rank, name)
    ensures Grows(w, s, s') && name in s' && s'[name].hash == Some([])
  {
    hide Sound, SetsRight, Grows;
  }

  lemma ElsewhereIsUnreadable(w: World, g: map<Text, Node<Text>>, s: Infos, name: Text)
    requires name in g && name !in s && w.elsewhere(name)
    ensures !Readable(w, g, s)
  {
  }

  lemma OwnIs(w: World, t: Info, own: Text)
    requires own == if t.own != [] then t.own else w.digest(RuleEncoding.RuleBytes(t.rule))
    ensures own == OwnHash(w, t)
  {
  }

  lemma KeptNode(w: World, s: Infos, s': Infos, name: Text)
    requires Grows(w, s, s') && name in s && s[name].hash.Some?
    ensures name in s' && s'[name] == s[name]
  {
    hide NodeFor;
  }

  lemma VisitedRule(w: World, g: map<Text, Node<Text>>, s: Infos, started: Infos, s': Infos, rank: map<Text, nat>,
                    name: Text, d: Text)
    requires Visiting(w, g, s, s', rank, name) && Grows(w, started, s') && name in started && started[name].hash.Some?
    requires name in g && !IsLeafType(started[name].ruleType) && started[name].ruleType != GENERATED_FILE
    requires d in started[name].deps
    ensures Pictures(w, g, s) ==> d in DepsOf(g[name])
  {
    hide Sound, SetsRight, OwnHash;
    KeptNode(w, started, s', name);
    if Pictures(w, g, s) {
      VisitedNode(w, g, s, s', rank, name);
    }
  }

  /** One more dependency of the rule being visited. */
  lemma RuleStep(w: World, g: map<Text, Node<Text>>, s: Infos, started: Infos, s': Infos, s'': Infos,
                 rank: map<Text, nat>, name: Text, own: Text, i: nat, bytes: Text, dephash: Text)
    requires name in g && name in started && started[name].hash.Some? && !IsLeafType(started[name].ruleType)
    requires started[name].ruleType != GENERATED_FILE
    requires i < |started[name].deps| && started[name].deps[i] in g && s'.Keys <= g.Keys
    requires Visiting(w, g, s, s', rank, name) && Grows(w, started, s') && Grows(w, s', s'')
    requires Accumulated(w, g, s, rank, name, own, started[name].deps[..i], bytes)
    requires HaveHashes(s', started[name].deps[..i])
    requires HashedRight(w, g, s', s'', rank, started[name].deps[i]) && ClosedSince(w, s', s'', {})
    requires started[name].deps[i] in s'' && s''[started[name].deps[i]].hash == Some(dephash)
    ensures Visiting(w, g, s, s'', rank, name) && Grows(w, started, s'')
    ensures Accumulated(w, g, s, rank, name, own, started[name].deps[..i + 1], bytes + dephash)
    ensures HaveHashes(s'', started[name].deps[..i + 1])
  {
    hide Sound, SetsRight, HashIs, HashedRight, Visiting, Accumulated, Grows, Pictures, ClosedSince, IsLeafType, DepsOf;
    var deps := started[name].deps;
    VisitedRule(w, g, s, started, s', rank, name, deps[i]);
    VisitedDep(w, g, s, s', s'', rank, name, deps[i]);
    AccumulatedNext(w, g, s, rank, name, own, deps, i, bytes, dephash);
    HashedStay(w, s', s'', deps[..i]);
    GrowsTwice(w, started, s', s'');
    assert deps[..i + 1] == deps[..i] + [deps[i]];
  }

  // ---- The hasher ----

  class Target {
    const Name: Text
    const RuleType: Text
    const Rule: Option<RuleEncoding.BazelRule>
    var Hash: Option<Text>
    var HashWithoutDeps: Text
    var Deps: seq<Text>
    var Root: bool

    constructor (name: Text, t: Info)
      ensures Name == name && Value() == t
    {
      Name, RuleType, Rule, Hash, HashWithoutDeps, Deps, Root := name, t.ruleType, t.rule, t.hash, t.own, t.deps,
          t.root;
    }

    function Value(): Info
      reads this
    {
      Info(RuleType, Rule, HashWithoutDeps, Deps, Hash, Root)
    }
  }

  class Hasher {
    var Targets: map<Text, Target>

    constructor ()
      ensures Targets == map[]
    {
      Targets := map[];
    }

    /** Every target is stored under its own name. */
    ghost predicate Keyed()
      reads this
    {
      forall n | n in Targets :: Targets[n].Name == n
    }

    ghost function Values(): Infos
      reads this, Targets.Values
    {
      map n | n in Targets :: Targets[n].Value()
    }

    /** Adds the hash of one dependency to the bytes of the rule being visited. */
    method DepBytes(w: World, name: Text, own: Text, i: nat, bytes: Text, ghost g: map<Text, Node<Text>>,
                    ghost s: Infos, ghost started: Infos, ghost rank: map<Text, nat>)
      returns (r: Result<Text>)
      requires Keyed() && name in Targets && name in g && DepsIn(g, Values())
      requires name in started && started[name].hash.Some? && !IsLeafType(started[name].ruleType)
      requires started[name].ruleType != GENERATED_FILE
      requires i < |started[name].deps| && Targets[name].Deps == started[name].deps
      requires Visiting(w, g, s, Values(), rank, name) && Grows(w, started, Values())
      requires Accumulated(w, g, s, rank, name, own, started[name].deps[..i], bytes)
      requires HaveHashes(Values(), started[name].deps[..i])
      modifies this, Targets.Values
      ensures Keyed() && Targets.Keys <= g.Keys && fresh(Targets.Values - old(Targets.Values))
      ensures forall n | n in old(Targets) :: n in Targets && Targets[n] == old(Targets[n])
      ensures Grows(w, old(Values()), Values()) && Grows(w, started, Values()) && DepsIn(g, Values())
      ensures r.Ok? ==> Visiting(w, g, s, Values(), rank, name)
      ensures r.Ok? ==>
        Accumulated(w, g, s, rank, name, own, started[name].deps[..i + 1], r.value) &&
            HaveHashes(Values(), started[name].deps[..i + 1])
      ensures Readable(w, g, old(Values())) ==> r.Ok?
      decreases Unhashed(g, Values()), 1
    {
      hide Sound, SetsRight, HashIs, HashedRight, Visiting, Accumulated, Grows, Unhashed, Readable, Pictures, NodeFor,
        OwnHash, ClosedSince, HaveHashes, IsLeafType, Ranked, Closed;
      ghost var before := Values();
      var dep := Targets[name].Deps[i];
      assert dep in before[name].deps;
      var dephash := HashRecursively(w, dep, g, rank);
      DepsStayIn(w, g, before, Values());
      GrowsTwice(w, started, before, Values());
      if dephash.Err? {
        return dephash;
      }
      assert Values()[dep] == Targets[dep].Value();
      RuleStep(w, g, s, started, before, Values(), rank, name, own, i, bytes, dephash.value);
      r := Ok(bytes + dephash.value);
    }

    /** The bytes of a rule: its own hash and its dependencies' hashes. */
    method RuleBytes(w: World, name: Text, own: Text, ghost g: map<Text, Node<Text>>, ghost s: Infos,
                     ghost rank: map<Text, nat>)
      returns (r: Result<Text>)
      requires Keyed() && name in Targets && name in g && DepsIn(g, Values())
      requires Visiting(w, g, s, Values(), rank, name) && own == OwnHash(w, Values()[name])
      requires !IsLeafType(Values()[name].ruleType) && Values()[name].ruleType != GENERATED_FILE
      modifies this, Targets.Values
      ensures Keyed() && Targets.Keys <= g.Keys && fresh(Targets.Values - old(Targets.Values))
      ensures forall n | n in old(Targets) :: n in Targets && Targets[n] == old(Targets[n])
      ensures Grows(w, old(Values()), Values())
      ensures r.Ok? ==> Visiting(w, g, s, Values(), rank, name)
      ensures r.Ok? ==> Accumulated(w, g, s, rank, name, own, old(Values())[name].deps, r.value)
      ensures r.Ok? ==> HaveHashes(Values(), old(Values())[name].deps)
      ensures Readable(w, g, old(Values())) ==> r.Ok?
      decreases Unhashed(g, Values()), 2
    {
      hide Sound, SetsRight, HashIs, HashedRight, Visiting, Accumulated, Grows, Unhashed, Readable, Pictures, NodeFor,
        OwnHash, ClosedSince, HaveHashes, IsLeafType, Ranked, Closed, Walked, DepsIn;
      ghost var started := Values();
      VisitingGrows(w, g, s, started, rank, name);
      var deps := Targets[name].Deps;
      var bytes := own;
      NothingAccumulated(w, g, s, rank, name, own);
      NothingMissing(started);
      NamesIn(g, started);
      GrowsItself(w, started);
      var i := 0;
      assert deps[..0] == [];
      while i < |deps|
        invariant 0 <= i <= |deps|
        invariant Keyed() && fresh(Targets.Values - old(Targets.Values)) && DepsIn(g, Values()) &&
            Targets.Keys <= g.Keys
        invariant forall n | n in old(Targets) :: n in Targets && Targets[n] == old(Targets[n])
        invariant Grows(w, started, Values()) && Visiting(w, g, s, Values(), rank, name)
        invariant Accumulated(w, g, s, rank, name, own, deps[..i], bytes) && HaveHashes(Values(), deps[..i])
      {
        NextDep(w, g, started, Values(), name);
        r := DepBytes(w, name, own, i, bytes, g, s, started, rank);
        if r.Err? {
          return;
        }
        bytes := r.value;
        i := i + 1;
      }
      assert deps[..i] == deps;
      r := Ok(bytes);
    }

    method AddMissing(name: Text)
      requires Keyed() && name !in Targets
      modifies this
      ensures Keyed() && Values() == old(Values())[name := MISSING]
      ensures fresh(Targets.Values - old(Targets.Values)) && Targets.Keys == old(Targets.Keys) + {name}
      ensures forall n | n in old(Targets) :: n in Targets && Targets[n] == old(Targets[n])
    {
      var missing := new Target(name, MISSING);
      Targets := Targets[name := missing];
    }

    method SetHash(name: Text, hash: Option<Text>)
      requires Keyed() && name in Targets
      modifies Targets[name]
      ensures Values() == old(Values())[name := old(Values())[name].(hash := hash)]
    {
      Targets[name].Hash := hash;
    }

    /** Stores a target that is missing, and empties its hash. */
    method Begin(name: Text)
      requires Keyed()
      modifies this, Targets.Values
      ensures Keyed() && Targets.Keys == old(Targets.Keys) + {name}
      ensures fresh(Targets.Values - old(Targets.Values))
      ensures forall n | n in old(Targets) :: n in Targets && Targets[n] == old(Targets[n])
      ensures var s := old(Values());
        Values() == s[name := (if name in s then s[name] else MISSING).(hash := Some([]))]
    {
      if name !in Targets {
        AddMissing(name);
      }
      SetHash(name, Some([]));
    }

    /** Stores a missing source file, and marks the target as being visited. */
    method Mark(w: World, name: Text, ghost g: map<Text, Node<Text>>, ghost rank: map<Text, nat>) returns (ok: bool)
      requires Keyed() && name in g && Targets.Keys <= g.Keys && (name in Targets ==> Targets[name].Hash.None?)
      modifies this, Targets.Values
      ensures Keyed() && Targets.Keys <= g.Keys && fresh(Targets.Values - old(Targets.Values))
      ensures forall n | n in old(Targets) :: n in Targets && Targets[n] == old(Targets[n])
      ensures !ok ==> name !in old(Targets) && w.elsewhere(name) && Values() == old(Values())
      ensures ok ==> Visiting(w, g, old(Values()), Values(), rank, name)
      ensures ok ==> name in Unhashed(g, old(Values())) && Unhashed(g, Values()) == Unhashed(g, old(Values())) - {name}
    {
      hide Visiting, Unhashed;
      ghost var s := Values();
      if name !in Targets && w.elsewhere(name) {
        return false;
      }
      Begin(name);
      StartVisiting(w, g, s, Values(), rank, name);
      ok := true;
    }

    method GeneratedHash(w: World, name: Text, ghost g: map<Text, Node<Text>>, ghost s: Infos,
                         ghost rank: map<Text, nat>)
      returns (r: Result<Text>)
      requires Keyed() && name in Targets && name in g && DepsIn(g, Values())
      requires Visiting(w, g, s, Values(), rank, name) && Values()[name].ruleType == GENERATED_FILE
      modifies this, Targets.Values
      ensures Keyed() && Targets.Keys <= g.Keys && fresh(Targets.Values - old(Targets.Values))
      ensures forall n | n in old(Targets) :: n in Targets && Targets[n] == old(Targets[n])
      ensures Grows(w, old(Values()), Values())
      ensures r.Ok? ==>
        Visiting(w, g, s, Values(), rank, name) && Values()[name].deps != [] &&
            HaveHashes(Values(), [Values()[name].deps[0]])
      ensures r.Ok? && Sound(w, g, s, rank, name) ==> HashIs(w, g, rank, name, Some(r.value))
      ensures Readable(w, g, old(Values())) ==> r.Ok?
      decreases Unhashed(g, Values()), 1
    {
      hide Sound, SetsRight, HashIs, HashedRight, Visiting, Grows, Unhashed, Pictures, NodeFor, ClosedSince;
      ghost var s1 := Values();
      GrowsItself(w, s1);
      VisitingGrows(w, g, s, s1, rank, name);
      if Targets[name].Deps == [] {
        return Err;
      }
      var dep := Targets[name].Deps[0];
      r := HashRecursively(w, dep, g, rank);
      if r.Ok? {
        assert Values()[dep] == Targets[dep].Value();
        AliasHash(w, g, s, s1, Values(), rank, name, dep, r.value);
        KeptNode(w, s1, Values(), name);
      }
    }

    /** The hash of a visited target, by its type, and its own hash. */
    method ContentHash(w: World, name: Text, ghost g: map<Text, Node<Text>>, ghost s: Infos, ghost rank: map<Text, nat>)
      returns (r: Result<Text>, own: Text)
      requires Keyed() && name in Targets && name in g && DepsIn(g, Values())
      requires Visiting(w, g, s, Values(), rank, name)
      modifies this, Targets.Values
      ensures Keyed() && Targets.Keys <= g.Keys && fresh(Targets.Values - old(Targets.Values))
      ensures forall n | n in old(Targets) :: n in Targets && Targets[n] == old(Targets[n])
      ensures Grows(w, old(Values()), Values())
      ensures r.Ok? ==> Visiting(w, g, s, Values(), rank, name) && HaveHashes(Values(), Walked(Values()[name]))
      ensures r.Ok? ==> NodeFor(w, name, Values()[name].(own := own)) == NodeFor(w, name, Values()[name])
      ensures r.Ok? && Values()[name].ruleType == SOURCE_FILE ==> w.source(name).Ok?
      ensures r.Ok? ==> own == OwnToStore(w, Values()[name])
      ensures r.Ok? && Sound(w, g, s, rank, name) ==> HashIs(w, g, rank, name, Some(r.value))
      ensures Readable(w, g, old(Values())) ==> r.Ok?
      decreases Unhashed(g, Values()), 3
    {
      hide Sound, SetsRight, HashIs, HashedRight, Visiting, Accumulated, Grows, Unhashed, Pictures, NodeFor,
        ClosedSince, OwnHash;
      ghost var s1 := Values();
      GrowsItself(w, s1);
      VisitingGrows(w, g, s, s1, rank, name);
      OwnKeepsNode(w, name, s1[name]);
      var target := Targets[name];
      own := [];
      if target.RuleType == SOURCE_FILE {
        r := w.source(name);
        if r.Ok? {
          LeafHash(w, g, s, s1, rank, name, r.value);
        }
      } else if target.RuleType == GENERATED_FILE {
        r := GeneratedHash(w, name, g, s, rank);
      } else if target.RuleType == PACKAGE_GROUP {
        r := Ok(w.digest(name));
        LeafHash(w, g, s, s1, rank, name, r.value);
      } else {
        own := target.HashWithoutDeps;
        if own == [] {
          own := w.digest(RuleEncoding.RuleBytes(target.Rule));
        }
        OwnIs(w, s1[name], own);
        r := RuleBytes(w, name, own, g, s, rank);
        if r.Ok? {
          KeptNode(w, s1, Values(), name);
          RuleHashed(w, g, s, Values(), rank, name, r.value);
          r := Ok(w.digest(r.value));
        }
      }
      if r.Ok? {
        KeptNode(w, s1, Values(), name);
      }
    }

    /** Hashes `name` and everything it needs. On an acyclic graph the hash is
        the full Merkle hash; on a cyclic one it terminates all the same. */
    method HashRecursively(w: World, name: Text, ghost g: map<Text, Node<Text>>, ghost rank: map<Text, nat>)
      returns (r: Result<Text>)
      requires Keyed() && name in g && DepsIn(g, Values())
      modifies this, Targets.Values
      ensures Keyed() && Targets.Keys <= g.Keys && fresh(Targets.Values - old(Targets.Values))
      ensures forall n | n in old(Targets) :: n in Targets && Targets[n] == old(Targets[n])
      ensures Grows(w, old(Values()), Values())
      ensures r.Ok? ==> name in Targets && Targets[name].Hash == Some(r.value)
      ensures r.Ok? ==> HashedRight(w, g, old(Values()), Values(), rank, name)
      ensures r.Ok? ==> ClosedSince(w, old(Values()), Values(), {})
      ensures Readable(w, g, old(Values())) ==> r.Ok?
      decreases Unhashed(g, Values()), 0
    {
      hide Sound, SetsRight, HashIs, HashedRight, Visiting, Grows, Unhashed, Pictures, NodeFor, ClosedSince, OwnHash,
        Readable, Ranked, Closed, IsLeafType;
      ghost var s := Values();
      GrowsItself(w, s);
      if name in Targets && Targets[name].Hash.Some? {
        AlreadyHashed(w, g, s, rank, name);
        return Ok(Targets[name].Hash.value);
      }
      var ok := Mark(w, name, g, rank);
      if !ok {
        ElsewhereIsUnreadable(w, g, s, name);
        return Err;
      }
      ghost var s1, stored := Values(), Targets.Values;
      VisitingGrows(w, g, s, s1, rank, name);
      DepsStayIn(w, g, s, s1);
      if Readable(w, g, s) {
        ReadableStays(w, g, s, s1);
      }
      r := HashMarked(w, name, g, s, rank);
      assert Targets.Values - old(Targets.Values) <= (Targets.Values - stored) + (stored - old(Targets.Values));
    }

    /** Hashes a marked target. */
    method HashMarked(w: World, name: Text, ghost g: map<Text, Node<Text>>, ghost s: Infos, ghost rank: map<Text, nat>)
      returns (r: Result<Text>)
      requires Keyed() && name in Targets && name in g && DepsIn(g, Values())
      requires Visiting(w, g, s, Values(), rank, name)
      modifies this, Targets.Values
      ensures Keyed() && Targets.Keys <= g.Keys && fresh(Targets.Values - old(Targets.Values))
      ensures forall n | n in old(Targets) :: n in Targets && Targets[n] == old(Targets[n])
      ensures Grows(w, s, Values())
      ensures r.Ok? ==> Targets[name].Hash == Some(r.value)
      ensures r.Ok? ==> HashedRight(w, g, s, Values(), rank, name) && ClosedSince(w, s, Values(), {})
      ensures Readable(w, g, old(Values())) ==> r.Ok?
      decreases Unhashed(g, Values()), 4
    {
      hide Sound, SetsRight, HashIs, HashedRight, Visiting, Grows, Unhashed, Pictures, NodeFor, ClosedSince, OwnHash,
        Readable, Ranked, Closed, IsLeafType;
      ghost var s1 := Values();
      VisitingGrows(w, g, s, s1, rank, name);
      var own;
      r, own := ContentHash(w, name, g, s, rank);
      GrowsTwice(w, s, s1, Values());
      if r.Ok? {
        VisitDone(w, g, s, Values(), rank, name, r.value, own);
        Finish(name, r.value, own);
      }
    }

    method Finish(name: Text, hash: Text, own: Text)
      requires Keyed() && name in Targets
      modifies Targets[name]
      ensures Values() == old(Values())[name := old(Values())[name].(hash := Some(hash), own := own)]
      ensures Targets[name].Hash == Some(hash)
    {
      Targets[name].Hash := Some(hash);
      Targets[name].HashWithoutDeps := own;
    }
  }
}
