/** A rule, its source file and a generated file: stored by one batch, changed by
    a second, and after each as if hashed from scratch. */
module RecomputeExample {
  import opened Wrappers
  import opened ByteStrings
  import opened Sorting
  import opened Merkle
  import opened ItgState
  import opened ItgContent
  import opened ItgGraph
  import opened ItgBatch
  import opened ItgOutcome
  import opened ItgOptimize
  import opened HashAgreement
  import opened Recompute
  import FullGraph
  import FH = FullHasher

  const RULE: Text := [97]
  const SOURCE: Text := [98]
  const OUTPUT: Text := [99]
  const OWN: Text := [1]

  /** The source file's content hash is `v`. */
  function WorldOf(h: Digest, v: Text): FH.World {
    FH.World(h, name => Ok(v), name => false)
  }

  function TargetMap(): FH.Infos {
    map[RULE := FH.Info(LIBRARY, None, OWN, [SOURCE], None, true),
        SOURCE := FH.Info(SOURCE_FILE, None, [], [], None, false),
        OUTPUT := FH.Info(GENERATED_FILE, None, [], [RULE], None, true)]
  }

  function Picture(v: Text): map<Text, Node<Text>> {
    map[RULE := Rule(OWN, [SOURCE]), SOURCE := Leaf(v), OUTPUT := Alias(RULE)]
  }

  const RANK: map<Text, nat> := map[RULE := 1, SOURCE := 0, OUTPUT := 2]

  /** The targets as a query gives them: the generated file has no hash of its
      own. */
  function Query(v: Text): map<Text, NewTarget> {
    map[RULE := NewTarget(RULE, None, Some(OWN), LIBRARY, [SOURCE]),
        SOURCE := NewTarget(SOURCE, Some(v), None, SOURCE_FILE, []),
        OUTPUT := NewTarget(OUTPUT, None, None, GENERATED_FILE, [RULE])]
  }

  function SourceOf(v: Text): Source {
    map n | n in Query(v) :: Computed(Query(v)[n], n != SOURCE)
  }

  lemma Kinds()
    ensures RULE != SOURCE && RULE != OUTPUT && SOURCE != OUTPUT
    ensures !IsLeafType(LIBRARY) && LIBRARY != GENERATED_FILE && IsLeafType(SOURCE_FILE) && !IsLeafType(GENERATED_FILE)
    ensures SOURCE_FILE != PACKAGE_GROUP && SOURCE_FILE != GENERATED_FILE && PACKAGE_GROUP != GENERATED_FILE
    ensures LIBRARY != SOURCE_FILE && LIBRARY != PACKAGE_GROUP
  {
    LibraryIsRule();
    assert RULE[0] == 97 && SOURCE[0] == 98 && OUTPUT[0] == 99;
    assert |SOURCE_FILE| == |Ascii("source file")| == 11 && |PACKAGE_GROUP| == |Ascii("package group")| == 13;
    assert |GENERATED_FILE| == |Ascii("generated file")| == 14;
  }

  lemma NodesAre(h: Digest, v: Text)
    ensures FH.NodeFor(WorldOf(h, v), RULE, TargetMap()[RULE]) == Rule(OWN, [SOURCE])
    ensures FH.NodeFor(WorldOf(h, v), SOURCE, TargetMap()[SOURCE]) == Leaf(v)
    ensures FH.NodeFor(WorldOf(h, v), OUTPUT, TargetMap()[OUTPUT]) == Alias(RULE)
  {
    Kinds();
  }

  lemma IsPictured(h: Digest, v: Text)
    ensures FH.Pictures(WorldOf(h, v), Picture(v), TargetMap()) && Ranked(Picture(v), RANK)
  {
    NodesAre(h, v);
    Kinds();
    hide FH.NodeFor, FH.SourceLeaf, WorldOf;
    var g := Picture(v);
    assert DepsOf(g[RULE]) == [SOURCE] && DepsOf(g[SOURCE]) == [] && DepsOf(g[OUTPUT]) == [RULE];
  }

  lemma IsReadable(h: Digest, v: Text)
    ensures FH.Readable(WorldOf(h, v), Picture(v), TargetMap()) && Picture(v).Keys == TargetMap().Keys
  {
    hide IsLeafType;
    Kinds();
    assert Picture(v).Keys == {RULE, SOURCE, OUTPUT} == TargetMap().Keys;
  }

  lemma IsShaped()
    ensures FullGraph.Shaped(TargetMap()) && FullGraph.Unstarted(TargetMap())
  {
    hide IsLeafType;
    Kinds();
  }

  lemma RuleIsDescribed(h: Digest, v: Text)
    ensures Describes(WorldOf(h, v), RULE, TargetMap()[RULE], NewEntry(Query(v)[RULE]))
  {
    Kinds();
    hide IsLeafType;
    assert (set d | d in [SOURCE]) == {SOURCE};
  }

  lemma SourceIsDescribed(h: Digest, v: Text)
    ensures Describes(WorldOf(h, v), SOURCE, TargetMap()[SOURCE], NewEntry(Query(v)[SOURCE]))
  {
    Kinds();
    hide IsLeafType, FH.OwnHash;
    var none: seq<Text> := [];
    assert (set d | d in none) == {};
  }

  lemma OutputIsDescribed(h: Digest, v: Text)
    ensures Describes(WorldOf(h, v), OUTPUT, TargetMap()[OUTPUT], NewEntry(Query(v)[OUTPUT]))
  {
    Kinds();
    hide IsLeafType, FH.OwnHash;
    assert (set d | d in [RULE]) == {RULE};
  }

  lemma ListsAreShort(m: Text)
    requires m in TargetMap()
    ensures |TargetMap()[m].deps| <= 1 && m in {RULE, SOURCE, OUTPUT}
  {
  }

  lemma ContentIs(v: Text, m: Text)
    requires m in Query(v)
    ensures m in SourceContent(SourceOf(v)) && SourceContent(SourceOf(v))[m] == NewEntry(Query(v)[m])
  {
    hide NewEntry;
  }

  lemma NamesAre(v: Text)
    ensures TargetMap().Keys == Query(v).Keys == SourceOf(v).Keys == SourceContent(SourceOf(v)).Keys
    ensures TargetMap().Keys == {RULE, SOURCE, OUTPUT}
  {
    hide NewEntry;
    assert SourceOf(v).Keys == Query(v).Keys;
    assert SourceContent(SourceOf(v)).Keys == SourceOf(v).Keys;
  }

  lemma IsDescribed(h: Digest, v: Text)
    ensures DescribesAll(WorldOf(h, v), TargetMap(), SourceContent(SourceOf(v)))
  {
    hide Describes, SourceContent, SourceOf, TargetMap, Query, NewEntry, WorldOf;
    var s := TargetMap();
    NamesAre(v);
    forall m | m in s
      ensures Describes(WorldOf(h, v), m, s[m], SourceContent(SourceOf(v))[m])
      ensures Sorted((a, b) => LessEq(a, b), s[m].deps) && NoDuplicates(s[m].deps)
    {
      ListsAreShort(m);
      ContentIs(v, m);
      RuleIsDescribed(h, v);
      SourceIsDescribed(h, v);
      OutputIsDescribed(h, v);
    }
  }

  lemma IsQueried(v: Text)
    ensures Queried(Query(v)) && SOURCE in Query(v) && Queried(map[SOURCE := Query(v)[SOURCE]])
  {
    Kinds();
    hide IsLeafType;
  }

  /** From nothing, the whole query. */
  lemma FirstLeads(v: Text)
    ensures Leads(map[], Change({}, {}, {}, Query(v)), SourceContent(SourceOf(v)))
  {
    hide NewEntry;
  }

  /** Then the source file alone. */
  lemma SourceDiffers(v: Text, u: Text)
    ensures Query(v).Keys == {RULE, SOURCE, OUTPUT}
    ensures Query(v)[RULE] == Query(u)[RULE] && Query(v)[OUTPUT] == Query(u)[OUTPUT]
  {
    Kinds();
  }

  lemma SecondLeads(v: Text, u: Text)
    ensures SOURCE in Query(u)
    ensures Leads(SourceContent(SourceOf(v)), Change({}, {}, {}, map[SOURCE := Query(u)[SOURCE]]),
                  SourceContent(SourceOf(u)))
  {
    hide NewEntry, PackageOf, SourceContent, SourceOf, Query, TargetMap;
    SourceDiffers(v, u);
    NamesAre(v);
    NamesAre(u);
    forall n | n in {RULE, SOURCE, OUTPUT}
      ensures SourceContent(SourceOf(v))[n] == NewEntry(Query(v)[n])
      ensures SourceContent(SourceOf(u))[n] == NewEntry(Query(u)[n])
    {
      ContentIs(v, n);
      ContentIs(u, n);
    }
  }

  lemma EmptyIsGood(h: Digest)
    ensures var s := State(map[], map[], map[], 0, map[], map[]); Good(h, s, {}) && ContentOf(s) == map[]
  {
  }

  /** A hasher that holds the target map. */
  method NewHasher() returns (hs: FH.Hasher)
    ensures fresh(hs) && fresh(hs.Targets.Values) && hs.Keyed() && hs.Values() == TargetMap()
  {
    Kinds();
    var infos := TargetMap();
    hs := new FH.Hasher();
    var rule := new FH.Target(RULE, infos[RULE]);
    var source := new FH.Target(SOURCE, infos[SOURCE]);
    var output := new FH.Target(OUTPUT, infos[OUTPUT]);
    hs.Targets := map[RULE := rule, SOURCE := source, OUTPUT := output];
  }

  lemma WorldHashes(h: Digest, v: Text)
    ensures WorldOf(h, v).digest == h
  {
  }

  lemma Ready(h: Digest, v: Text)
    ensures var w, s := WorldOf(h, v), TargetMap();
      && FH.Pictures(w, Picture(v), s) && FH.Readable(w, Picture(v), s) && Ranked(Picture(v), RANK)
      && DescribesAll(w, s, SourceContent(SourceOf(v))) && w.digest == h
    ensures FullGraph.Unstarted(TargetMap()) && FullGraph.Shaped(TargetMap()) && Picture(v).Keys == TargetMap().Keys
    ensures SourceOf(v).Keys == {RULE, SOURCE, OUTPUT}
  {
    hide *;
    IsPictured(h, v);
    IsReadable(h, v);
    IsShaped();
    IsDescribed(h, v);
    NamesAre(v);
    WorldHashes(h, v);
  }

  /** One batch, and the new target map hashed from scratch. */
  method Step(g: OptimizedGraph, h: Digest, change: Change, v: Text) returns (hs: FH.Hasher)
    requires g.Keyed() && Good(h, g.Abs(), {}) && Queried(change.targets)
    requires Leads(ContentOf(g.Abs()), change, SourceContent(SourceOf(v)))
    modifies g, g.OptimizedTargets.Values
    ensures fresh(g.OptimizedTargets.Values - old(g.OptimizedTargets.Values))
    ensures g.Keyed() && Good(h, g.Abs(), {}) && ContentOf(g.Abs()) == SourceContent(SourceOf(v))
    ensures forall n | n in {RULE, SOURCE, OUTPUT} ::
        && n in g.TargetNameToID && g.TargetNameToID[n] in g.OptimizedTargets
        && n in hs.Targets && hs.Targets[n].Hash.Some?
        && g.OptimizedTargets[g.TargetNameToID[n]].Hash == hs.Targets[n].Hash
  {
    hide *;
    Ready(h, v);
    hs := NewHasher();
    var ok := UpdateAndRecompute(g, change, hs, WorldOf(h, v), [], SourceOf(v), Picture(v), RANK);
  }

  /** Every hypothesis of `UpdateAndRecompute` is met, twice: first the query is
      stored in an empty graph, then the source file changes. */
  method StoreAndChange(h: Digest, v: Text, u: Text) returns (g: OptimizedGraph, hs: FH.Hasher)
    ensures g.Keyed() && Good(h, g.Abs(), {}) && ContentOf(g.Abs()) == SourceContent(SourceOf(u))
    ensures forall n | n in {RULE, SOURCE, OUTPUT} ::
        && n in g.TargetNameToID && g.TargetNameToID[n] in g.OptimizedTargets
        && n in hs.Targets && hs.Targets[n].Hash.Some?
        && g.OptimizedTargets[g.TargetNameToID[n]].Hash == hs.Targets[n].Hash
  {
    hide *;
    g := new OptimizedGraph();
    EmptyIsGood(h);
    IsQueried(v);
    IsQueried(u);
    FirstLeads(v);
    SecondLeads(v, u);
    hs := Step(g, h, Change({}, {}, {}, Query(v)), v);
    hs := Step(g, h, Change({}, {}, {}, map[SOURCE := Query(u)[SOURCE]]), u);
  }
}
