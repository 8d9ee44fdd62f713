/** The full computation over a target map: hashing from pinned targets and
    roots, listing in dependency order, and sweeping up rootless cycles. */
module FullGraph {
  import opened Wrappers
  import opened ByteStrings
  import opened Sorting
  import opened TextSort
  import opened Merkle
  import opened ItgState
  import opened Toposort
  import opened FullHasher
  import RuleEncoding

  function TableFrom(s: Infos): Table {
    map n | n in s :: s[n].deps
  }

  /** Leaves have no dependencies and generated files have their rule. */
  ghost predicate Shaped(s: Infos) {
    forall n | n in s ::
        (IsLeafType(s[n].ruleType) ==> s[n].deps == []) && (s[n].ruleType == GENERATED_FILE ==> |s[n].deps| == 1)
  }

  /** What every top-level call keeps: hashes set so far are closed under
      dependencies, and right when the graph is acyclic. */
  ghost predicate Underway(w: World, g: map<Text, Node<Text>>, s0: Infos, s: Infos, rank: map<Text, nat>) {
    && Grows(w, s0, s) && s.Keys <= g.Keys && ClosedSince(w, s0, s, {})
    && (Ranked(g, rank) ==> SetsRight(w, g, s0, s, rank, {}))
  }

  ghost predicate Unstarted(s: Infos) {
    forall n | n in s :: s[n].hash.None?
  }

  lemma UnderwayIsSound(w: World, g: map<Text, Node<Text>>, s0: Infos, s: Infos, rank: map<Text, nat>, name: Text)
    requires Unstarted(s0) && Pictures(w, g, s0) && Underway(w, g, s0, s, rank) && Ranked(g, rank) && name in g
    ensures Sound(w, g, s, rank, name)
  {
    hide NodeFor, HashIs, ClosedSince;
    PictureStays(w, g, s0, s);
  }

  lemma UnderwayOn(w: World, g: map<Text, Node<Text>>, s0: Infos, s: Infos, s': Infos, rank: map<Text, nat>, name: Text)
    requires Unstarted(s0) && Pictures(w, g, s0) && Underway(w, g, s0, s, rank) && name in g
    requires Grows(w, s, s') && s'.Keys <= g.Keys && HashedRight(w, g, s, s', rank, name) && ClosedSince(w, s, s', {})
    ensures Underway(w, g, s0, s', rank)
  {
    hide NodeFor, HashIs, Pictures, Sound, Walked, HaveHashes, Ranked;
    GrowsTwice(w, s0, s, s');
    if Ranked(g, rank) {
      UnderwayIsSound(w, g, s0, s, rank, name);
      RightOn(w, g, s0, s, s', rank);
    }
    ClosedOn(w, s0, s, s');
  }

  lemma RightOn(w: World, g: map<Text, Node<Text>>, s0: Infos, s: Infos, s': Infos, rank: map<Text, nat>)
    requires Grows(w, s0, s) && Grows(w, s, s') && SetsRight(w, g, s0, s, rank, {}) && SetsRight(w, g, s, s', rank, {})
    ensures SetsRight(w, g, s0, s', rank, {})
  {
    hide NodeFor, HashIs;
  }

  lemma ClosedOn(w: World, s0: Infos, s: Infos, s': Infos)
    requires Grows(w, s0, s) && Grows(w, s, s') && ClosedSince(w, s0, s, {}) && ClosedSince(w, s, s', {})
    ensures ClosedSince(w, s0, s', {})
  {
    hide NodeFor, Walked;
    forall n | n in s' && s'[n].hash.Some? && (n !in s0 || s0[n].hash.None?)
      ensures HaveHashes(s', Walked(s'[n])) && WasRead(w, s0, n, s'[n])
    {
      if n in s && s[n].hash.Some? {
        assert HaveHashes(s, Walked(s[n])) && s'[n] == s[n];
      }
    }
  }

  lemma NotYetUnderway(w: World, g: map<Text, Node<Text>>, s: Infos, rank: map<Text, nat>)
    requires s.Keys <= g.Keys
    ensures Underway(w, g, s, s, rank)
  {
    hide HashIs, HaveHashes;
    GrowsItself(w, s);
  }

  lemma PicturedEdges(w: World, g: map<Text, Node<Text>>, s: Infos, n: Text)
    requires Pictures(w, g, s) && Shaped(s) && n in s
    ensures DepsOf(g[n]) == s[n].deps == Walked(s[n])
  {
    hide OwnHash;
  }

  lemma PicturedDeps(w: World, g: map<Text, Node<Text>>, s: Infos)
    requires Pictures(w, g, s) && Shaped(s)
    ensures DepsIn(g, s)
  {
    hide NodeFor, DepsOf;
    forall n, d | n in s && d in s[n].deps ensures d in g {
      PicturedEdges(w, g, s, n);
      assert d in DepsOf(g[n]);
    }
  }

  // ---- Hashing a list of names ----

  method HashName(hs: Hasher, w: World, name: Text, ghost g: map<Text, Node<Text>>, ghost s0: Infos,
                  ghost rank: map<Text, nat>)
    returns (ok: bool)
    requires hs.Keyed() && DepsIn(g, hs.Values()) && Unstarted(s0) && Pictures(w, g, s0)
    requires Underway(w, g, s0, hs.Values(), rank)
    requires name in hs.Targets
    modifies hs, hs.Targets.Values
    ensures hs.Keyed() && DepsIn(g, hs.Values()) && fresh(hs.Targets.Values - old(hs.Targets.Values))
    ensures forall n | n in old(hs.Targets) :: n in hs.Targets && hs.Targets[n] == old(hs.Targets[n])
    ensures Grows(w, old(hs.Values()), hs.Values())
    ensures ok ==> Underway(w, g, s0, hs.Values(), rank) && hs.Values()[name].hash.Some?
    ensures Readable(w, g, old(hs.Values())) ==> ok
  {
    hide Grows, Pictures, Underway, Unstarted, HashedRight, ClosedSince, Readable;
    ghost var before := hs.Values();
    var r := hs.HashRecursively(w, name, g, rank);
    DepsStayIn(w, g, before, hs.Values());
    if r.Err? {
      return false;
    }
    UnderwayOn(w, g, s0, before, hs.Values(), rank, name);
    assert hs.Values()[name] == hs.Targets[name].Value();
    ok := true;
  }

  /** The listed targets that `s` has are hashed in `s'`. */
  ghost predicate HashedAmong(s: Infos, s': Infos, names: seq<Text>) {
    forall n | n in names && n in s :: n in s' && s'[n].hash.Some?
  }

  lemma NoneAmong(s: Infos)
    ensures HashedAmong(s, s, [])
  {
  }

  lemma AmongNext(w: World, s: Infos, s': Infos, s'': Infos, names: seq<Text>, name: Text)
    requires HashedAmong(s, s', names) && Grows(w, s', s'') && name in s'' && s''[name].hash.Some?
    ensures HashedAmong(s, s'', names + [name])
  {
    HashesStay(w, s', s'');
  }

  lemma AmongSkipped(w: World, s: Infos, s': Infos, names: seq<Text>, name: Text)
    requires HashedAmong(s, s', names) && Grows(w, s, s') && name !in s'
    ensures HashedAmong(s, s', names + [name])
  {
    HashesStay(w, s, s');
  }

  /** Hashes every listed target that exists. */
  method HashNames(hs: Hasher, w: World, names: seq<Text>, ghost g: map<Text, Node<Text>>, ghost s0: Infos,
                   ghost rank: map<Text, nat>)
    returns (ok: bool)
    requires hs.Keyed() && DepsIn(g, hs.Values()) && Unstarted(s0) && Pictures(w, g, s0)
    requires Underway(w, g, s0, hs.Values(), rank)
    modifies hs, hs.Targets.Values
    ensures hs.Keyed() && DepsIn(g, hs.Values()) && fresh(hs.Targets.Values - old(hs.Targets.Values))
    ensures Grows(w, old(hs.Values()), hs.Values())
    ensures ok ==> Underway(w, g, s0, hs.Values(), rank)
    ensures ok ==> HashedAmong(old(hs.Values()), hs.Values(), names)
    ensures Readable(w, g, old(hs.Values())) ==> ok
  {
    hide Grows, Pictures, Underway, Unstarted, DepsIn, Readable, HashedAmong;
    ghost var started := hs.Values();
    GrowsItself(w, started);
    NoneAmong(started);
    assert names[..0] == [];
    var i := 0;
    while i < |names|
      invariant 0 <= i <= |names|
      invariant hs.Keyed() && DepsIn(g, hs.Values()) && fresh(hs.Targets.Values - old(hs.Targets.Values))
      invariant Grows(w, started, hs.Values()) && Underway(w, g, s0, hs.Values(), rank)
      invariant HashedAmong(started, hs.Values(), names[..i])
    {
      assert names[..i + 1] == names[..i] + [names[i]];
      if names[i] in hs.Targets {
        ghost var before, stored := hs.Values(), hs.Targets.Values;
        if Readable(w, g, started) {
          StillReadable(w, g, started, before);
        }
        ok := HashName(hs, w, names[i], g, s0, rank);
        assert hs.Targets.Values - old(hs.Targets.Values) <= (hs.Targets.Values - stored) +
            (stored - old(hs.Targets.Values));
        GrowsTwice(w, started, before, hs.Values());
        if !ok {
          return;
        }
        AmongNext(w, started, before, hs.Values(), names[..i], names[i]);
      } else {
        AmongSkipped(w, started, hs.Values(), names[..i], names[i]);
      }
      i := i + 1;
    }
    assert names[..i] == names;
    ok := true;
  }

  lemma StillReadable(w: World, g: map<Text, Node<Text>>, s: Infos, s': Infos)
    requires Readable(w, g, s) && Grows(w, s, s') && DepsIn(g, s')
    ensures Readable(w, g, s')
  {
    ReadableStays(w, g, s, s');
  }

  lemma HashesStay(w: World, s: Infos, s': Infos)
    requires Grows(w, s, s')
    ensures forall n | n in s :: n in s' && (s[n].hash.Some? ==> s'[n].hash.Some?)
  {
    hide NodeFor;
  }

  // ---- Root marks ----

  ghost function Marked(s: Infos, names: set<Text>): Infos {
    map n | n in s :: if n in names then s[n].(root := true) else s[n]
  }

  lemma MarkedPictured(w: World, g: map<Text, Node<Text>>, s: Infos, names: set<Text>)
    requires Pictures(w, g, s)
    ensures Pictures(w, g, Marked(s, names))
  {
    hide Closed, OwnHash;
    forall n | n in s ensures NodeFor(w, n, Marked(s, names)[n]) == NodeFor(w, n, s[n]) {
      RootlessNode(w, n, s[n]);
    }
  }

  lemma RootlessNode(w: World, n: Text, t: Info)
    ensures NodeFor(w, n, t.(root := true)) == NodeFor(w, n, t)
  {
  }

  lemma MarkedReadable(w: World, g: map<Text, Node<Text>>, s: Infos, names: set<Text>)
    requires Readable(w, g, s)
    ensures Readable(w, g, Marked(s, names))
  {
  }

  lemma MarkingKeeps(w: World, g: map<Text, Node<Text>>, s: Infos, names: set<Text>)
    ensures Pictures(w, g, s) ==> Pictures(w, g, Marked(s, names))
    ensures Unstarted(s) ==> Unstarted(Marked(s, names))
    ensures Shaped(s) ==> Shaped(Marked(s, names))
    ensures DepsIn(g, s) ==> DepsIn(g, Marked(s, names))
    ensures Readable(w, g, s) ==> Readable(w, g, Marked(s, names))
    ensures TableFrom(Marked(s, names)) == TableFrom(s)
  {
    hide Pictures, Readable;
    if Pictures(w, g, s) {
      MarkedPictured(w, g, s, names);
    }
    if Readable(w, g, s) {
      MarkedReadable(w, g, s, names);
    }
  }

  lemma MarkedNode(w: World, n: Text, t: Info, u: Info)
    requires NodeFor(w, n, t) == NodeFor(w, n, u)
    ensures NodeFor(w, n, t.(root := true)) == NodeFor(w, n, u.(root := true))
  {
  }

  lemma MarkedGrows(w: World, s0: Infos, s: Infos, names: set<Text>)
    requires Grows(w, s0, s)
    ensures Grows(w, Marked(s0, names), Marked(s, names))
  {
    var t0, t := Marked(s0, names), Marked(s, names);
    hide NodeFor;
    forall n | n in t0 ensures NodeFor(w, n, t[n]) == NodeFor(w, n, t0[n]) {
      MarkedNode(w, n, s[n], s0[n]);
    }
  }

  lemma MarkedClosed(w: World, s0: Infos, s: Infos, names: set<Text>)
    requires ClosedSince(w, s0, s, {})
    ensures ClosedSince(w, Marked(s0, names), Marked(s, names), {})
  {
    var t0, t := Marked(s0, names), Marked(s, names);
    forall n | n in t && t[n].hash.Some? && (n !in t0 || t0[n].hash.None?)
      ensures HaveHashes(t, Walked(t[n])) && WasRead(w, t0, n, t[n])
    {
      assert HaveHashes(s, Walked(s[n]));
    }
  }

  lemma MarkedRight(w: World, g: map<Text, Node<Text>>, s0: Infos, s: Infos, rank: map<Text, nat>, names: set<Text>)
    requires SetsRight(w, g, s0, s, rank, {})
    ensures SetsRight(w, g, Marked(s0, names), Marked(s, names), rank, {})
  {
    hide HashIs;
  }

  lemma MarkingKeepsUnderway(w: World, g: map<Text, Node<Text>>, s0: Infos, s: Infos, rank: map<Text, nat>,
                             names: set<Text>)
    requires Underway(w, g, s0, s, rank)
    ensures Underway(w, g, Marked(s0, names), Marked(s, names), rank)
  {
    hide Grows, ClosedSince, SetsRight, Ranked;
    MarkedGrows(w, s0, s, names);
    MarkedClosed(w, s0, s, names);
    if Ranked(g, rank) {
      MarkedRight(w, g, s0, s, rank, names);
    }
  }

  /** The names to mark: all of them, or the buildable ones. */
  ghost function Chosen(s: Infos, names: seq<Text>, anyType: bool): set<Text> {
    set n | n in names && n in s && (anyType || CanBeRoot(s[n].ruleType))
  }

  lemma ChosenNext(s: Infos, names: seq<Text>, i: nat, anyType: bool)
    requires i < |names| && names[i] in s
    ensures Chosen(s, names[..i + 1], anyType) ==
            Chosen(s, names[..i], anyType) + if anyType || CanBeRoot(s[names[i]].ruleType) then {names[i]} else {}
  {
    assert names[..i + 1] == names[..i] + [names[i]];
  }

  lemma MarkedNext(s: Infos, names: set<Text>, n: Text)
    requires n in s
    ensures Marked(s, names)[n := Marked(s, names)[n].(root := true)] == Marked(s, names + {n})
    ensures Marked(s, names + {}) == Marked(s, names)
  {
  }

  method MarkRoot(hs: Hasher, n: Text)
    requires hs.Keyed() && n in hs.Targets
    modifies hs.Targets[n]
    ensures hs.Values() == old(hs.Values())[n := old(hs.Values())[n].(root := true)]
  {
    hs.Targets[n].Root := true;
  }

  method MarkRoots(hs: Hasher, names: seq<Text>, anyType: bool)
    requires hs.Keyed() && forall n | n in names :: n in hs.Targets
    modifies hs.Targets.Values
    ensures hs.Values() == Marked(old(hs.Values()), Chosen(old(hs.Values()), names, anyType))
  {
    hide Chosen, Marked;
    ghost var was := hs.Values();
    NothingMarked(was, anyType);
    assert names[..0] == [];
    var i := 0;
    while i < |names|
      invariant 0 <= i <= |names|
      invariant hs.Values() == Marked(was, Chosen(was, names[..i], anyType))
    {
      var n := names[i];
      ChosenNext(was, names, i, anyType);
      MarkedNext(was, Chosen(was, names[..i], anyType), n);
      MarkedType(was, Chosen(was, names[..i], anyType), n);
      assert hs.Targets[n].Value() == hs.Values()[n];
      if anyType || CanBeRoot(hs.Targets[n].RuleType) {
        MarkRoot(hs, n);
      }
      i := i + 1;
    }
    assert names[..i] == names;
  }

  lemma NothingMarked(s: Infos, anyType: bool)
    ensures Chosen(s, [], anyType) == {} && Marked(s, {}) == s
  {
  }

  lemma MarkedType(s: Infos, names: set<Text>, n: Text)
    ensures Marked(s, names).Keys == s.Keys && (n in s ==> Marked(s, names)[n].ruleType == s[n].ruleType)
  {
  }

  // ---- What is hashed ----

  ghost function HashedNames(s: Infos): set<Text> {
    set n | n in s && s[n].hash.Some?
  }

  lemma GrownShape(w: World, s0: Infos, s: Infos)
    requires Shaped(s0) && Grows(w, s0, s)
    ensures Shaped(s)
  {
    hide NodeFor;
  }

  /** Everything below hashed roots is hashed. */
  lemma HashedBelow(w: World, g: map<Text, Node<Text>>, s0: Infos, s: Infos, rank: map<Text, nat>, roots: seq<Text>,
                    n: Text)
    requires Unstarted(s0) && Shaped(s0) && Underway(w, g, s0, s, rank)
    requires forall r | r in roots :: r in s && s[r].hash.Some?
    requires BelowSome(TableFrom(s), roots, n)
    ensures n in s && s[n].hash.Some?
  {
    hide NodeFor, SetsRight, Ranked, Steps;
    GrownShape(w, s0, s);
    forall x, d | x in HashedNames(s) && DependsOn(TableFrom(s), x, d) ensures d in HashedNames(s) {
      assert HaveHashes(s, Walked(s[x]));
      assert s[x].deps == Walked(s[x]);
    }
    var k :| 0 <= k < |roots| && Below(TableFrom(s), roots[k], n);
    assert roots[k] in roots;
    var m: nat :| Steps(TableFrom(s), roots[k], n, m);
    BelowStaysInside(TableFrom(s), HashedNames(s), roots[k], n, m);
  }

  /** The names that the walk from the roots did not reach, sorted. */
  method Unvisited(names: set<Text>, visited: set<Text>) returns (list: seq<Text>)
    ensures forall n :: n in list <==> n in names && n !in visited
    ensures NoDuplicates(list) && Sorted((a, b) => LessEq(a, b), list)
  {
    list := [];
    var left := names;
    while left != {}
      invariant left <= names
      invariant forall n :: n in list <==> n in names && n !in left && n !in visited
      invariant NoDuplicates(list)
      decreases left
    {
      var n :| n in left;
      if n !in visited {
        list := list + [n];
      }
      left := left - {n};
    }
    SortedTexts(list);
    SameElements(list, SortTexts(list));
    SortingKeepsDistinct(list, SortTexts(list));
    list := SortTexts(list);
  }

  // ---- The whole computation ----

  /** Every name that the hasher may meet is a target already. */
  ghost predicate SelfContained(g: map<Text, Node<Text>>, s: Infos) {
    g.Keys == s.Keys
  }

  /** The state when the walk from the roots is over. */
  ghost predicate Walkthrough(w: World, g: map<Text, Node<Text>>, s0: Infos, s: Infos, rank: map<Text, nat>,
                              roots: seq<Text>) {
    && Unstarted(s0) && Pictures(w, g, s0) && Shaped(s0) && Underway(w, g, s0, s, rank)
    && (forall r :: r in roots <==> IsRoot(TableFrom(s0), r))
    && HashedAmong(s0, s, roots)
  }

  lemma {:induction false} StepsGrow(w: World, s0: Infos, s: Infos, a: Text, b: Text, n: nat)
    requires Grows(w, s0, s) && Steps(TableFrom(s0), a, b, n)
    ensures Steps(TableFrom(s), a, b, n)
    decreases n
  {
    hide NodeFor;
    if n > 0 {
      var c :| Steps(TableFrom(s0), a, c, n - 1) && DependsOn(TableFrom(s0), c, b);
      StepsGrow(w, s0, s, a, c, n - 1);
      assert DependsOn(TableFrom(s), c, b);
    }
  }

  lemma RankedDescends(w: World, g: map<Text, Node<Text>>, s: Infos, rank: map<Text, nat>)
    requires Pictures(w, g, s) && Shaped(s) && Ranked(g, rank)
    ensures Descending(TableFrom(s), rank)
  {
    hide NodeFor, DepsOf;
    forall n, d | DependsOn(TableFrom(s), n, d) && d in TableFrom(s) ensures rank[d] < rank[n] {
      PicturedEdges(w, g, s, n);
      assert d in DepsOf(g[n]);
    }
  }

  /** On an acyclic graph the walk from the roots reaches every target. */
  lemma AcyclicReachesAll(w: World, g: map<Text, Node<Text>>, s0: Infos, s: Infos, rank: map<Text, nat>,
                          roots: seq<Text>, n: Text)
    requires Walkthrough(w, g, s0, s, rank, roots) && Ranked(g, rank) && n in s0
    ensures BelowSome(TableFrom(s), roots, n)
  {
    hide Pictures, Shaped, Ranked, Grows, Steps, IsRoot;
    RankedDescends(w, g, s0, rank);
    AcyclicIsReached(TableFrom(s0), rank, roots, n);
    var k :| 0 <= k < |roots| && Below(TableFrom(s0), roots[k], n);
    var m: nat :| Steps(TableFrom(s0), roots[k], n, m);
    StepsGrow(w, s0, s, roots[k], n, m);
    assert Below(TableFrom(s), roots[k], n);
  }

  /** Everything the walk lists is hashed. */
  lemma WalkthroughHashes(w: World, g: map<Text, Node<Text>>, s0: Infos, s: Infos, rank: map<Text, nat>,
                          roots: seq<Text>, n: Text)
    requires Walkthrough(w, g, s0, s, rank, roots) && BelowSome(TableFrom(s), roots, n)
    ensures n in s && s[n].hash.Some?
  {
    hide Pictures, Shaped, Underway, BelowSome, Unstarted;
    forall r | r in roots ensures r in s && s[r].hash.Some? {
      assert IsRoot(TableFrom(s0), r);
    }
    HashedBelow(w, g, s0, s, rank, roots, n);
  }

  /** Every source file could be read, and every missing dependency is one that
      could be, of this repository. */
  ghost predicate AllRead(w: World, s: Infos) {
    && (forall n | n in s && s[n].ruleType == SOURCE_FILE :: w.source(n).Ok?)
    && (forall n, d | n in s && d in s[n].deps && d !in s :: w.source(d).Ok? && !w.elsewhere(d))
  }

  /** A target keeps all but its hash, its mark and its own hash, which is that of
      a rule's body and nothing for other targets. */
  ghost predicate AllKept(w: World, s: Infos, s': Infos) {
    forall n | n in s ::
        n in s' && s'[n] == s[n].(hash := s'[n].hash, root := s'[n].root, own := OwnToStore(w, s[n]))
  }

  lemma HashedWereRead(w: World, g: map<Text, Node<Text>>, s0: Infos, s: Infos, rank: map<Text, nat>)
    requires Unstarted(s0) && Shaped(s0) && Underway(w, g, s0, s, rank) && forall n | n in s :: s[n].hash.Some?
    ensures AllRead(w, s0) && AllKept(w, s0, s)
  {
    hide NodeFor, SetsRight, Ranked, OwnToStore;
    GrownShape(w, s0, s);
    forall n | n in s0 ensures n in s && s[n].own == OwnToStore(w, s0[n]) {
      assert WasRead(w, s0, n, s[n]);
    }
    forall n | n in s0 && s0[n].ruleType == SOURCE_FILE ensures w.source(n).Ok? {
      assert WasRead(w, s0, n, s[n]);
    }
    forall n, d | n in s0 && d in s0[n].deps && d !in s0 ensures w.source(d).Ok? && !w.elsewhere(d) {
      assert HaveHashes(s, Walked(s[n])) && s[n].deps == s0[n].deps == Walked(s[n]);
      assert d in s && WasRead(w, s0, d, s[d]);
    }
  }

  /** When the graph pictures no more than the map needs, that is all it takes. */
  lemma ReadIsReadable(w: World, g: map<Text, Node<Text>>, s: Infos)
    requires Pictures(w, g, s) && Shaped(s) && AllRead(w, s)
    requires forall n | n in g :: n in s || exists m :: m in s && n in s[m].deps
    ensures Readable(w, g, s)
  {
    hide NodeFor, DepsOf, Closed;
    PicturedDeps(w, g, s);
    forall n | n in g && n !in s ensures w.source(n).Ok? && !w.elsewhere(n) {
      var m :| m in s && n in s[m].deps;
    }
  }

  /** What the computation returns. */
  ghost predicate Complete(w: World, g: map<Text, Node<Text>>, s0: Infos, s: Infos, rank: map<Text, nat>,
                           order: seq<Text>) {
    && NoDuplicates(order)
    && (forall n | n in s :: s[n].hash.Some?)
    && (forall n | n in order :: n in s) && (forall n | n in s0 :: n in order)
    && (SelfContained(g, s0) ==> forall n | n in s :: n in order)
    && AllRead(w, s0) && AllKept(w, s0, s)
    && (Ranked(g, rank) ==> (forall n | n in s :: HashIs(w, g, rank, n, s[n].hash)) && DepsFirst(TableFrom(s), order))
  }

  /** Hashes from the pinned targets and then from the roots. */
  method HashFromRoots(hs: Hasher, w: World, sequential: seq<Text>, roots: seq<Text>, ghost g: map<Text, Node<Text>>,
                       ghost s0: Infos, ghost rank: map<Text, nat>)
    returns (ok: bool)
    requires hs.Keyed() && s0 == hs.Values() && Unstarted(s0) && Pictures(w, g, s0) && Shaped(s0)
    requires forall r :: r in roots <==> IsRoot(TableFrom(s0), r)
    modifies hs, hs.Targets.Values
    ensures hs.Keyed() && DepsIn(g, hs.Values()) && fresh(hs.Targets.Values - old(hs.Targets.Values))
    ensures ok ==> Walkthrough(w, g, s0, hs.Values(), rank, roots)
    ensures Readable(w, g, s0) ==> ok && Readable(w, g, hs.Values())
  {
    hide Unstarted, Pictures, Shaped, Underway, DepsIn, Grows, Readable, HashedAmong, IsRoot;
    PicturedDeps(w, g, s0);
    StartUnderway(w, g, s0, rank);
    ok := HashNames(hs, w, sequential, g, s0, rank);
    ghost var s1, stored := hs.Values(), hs.Targets.Values;
    if Readable(w, g, s0) {
      StillReadable(w, g, s0, s1);
    }
    if !ok {
      return;
    }
    ok := HashNames(hs, w, roots, g, s0, rank);
    assert hs.Targets.Values - old(hs.Targets.Values) <= (hs.Targets.Values - stored) +
        (stored - old(hs.Targets.Values));
    AmongEarlier(w, s0, s1, hs.Values(), roots);
    if Readable(w, g, s1) {
      StillReadable(w, g, s1, hs.Values());
    }
  }

  /** Lists what the roots reach, dependencies first. */
  method ListFromRoots(hs: Hasher, roots: seq<Text>, ghost rank: map<Text, nat>)
    returns (order: seq<Text>, visited: set<Text>)
    requires hs.Keyed()
    ensures var table := TableFrom(hs.Values());
      && Tidy(table, visited, order)
      && (forall n :: n in order <==> n in hs.Values() && BelowSome(table, roots, n))
      && (forall n :: n in visited <==> BelowSome(table, roots, n))
      && (Descending(table, rank) ==> DepsFirst(table, order))
      && order == WalkAll(table, Trail({}, []), roots).order
  {
    hide BelowSome, Tidy, DepsFirst, Descending;
    var sorter := new Sorter(map n | n in hs.Targets :: hs.Targets[n].Deps);
    assert sorter.table == TableFrom(hs.Values());
    sorter.VisitAll(roots, rank);
    order, visited := sorter.order, sorter.visited;
  }

  lemma StartUnderway(w: World, g: map<Text, Node<Text>>, s: Infos, rank: map<Text, nat>)
    requires Pictures(w, g, s)
    ensures Underway(w, g, s, s, rank)
  {
    NotYetUnderway(w, g, s, rank);
  }

  lemma AmongEarlier(w: World, s0: Infos, s1: Infos, s: Infos, names: seq<Text>)
    requires Grows(w, s0, s1)
    ensures HashedAmong(s1, s, names) ==> HashedAmong(s0, s, names)
  {
    hide NodeFor;
  }

  // ---- Rootless cycles ----

  lemma MarkingKeepsWalk(w: World, g: map<Text, Node<Text>>, s0: Infos, s: Infos, rank: map<Text, nat>,
                         roots: seq<Text>, names: set<Text>)
    requires Walkthrough(w, g, s0, s, rank, roots)
    ensures Walkthrough(w, g, Marked(s0, names), Marked(s, names), rank, roots)
  {
    hide Pictures, Shaped, Underway, Unstarted, IsRoot, Ranked;
    MarkingKeeps(w, g, s0, names);
    MarkingKeepsUnderway(w, g, s0, s, rank, names);
  }

  /** Hashes what the roots did not reach, each as a root of its own. */
  method HashLeftovers(hs: Hasher, w: World, leftovers: seq<Text>, roots: seq<Text>, ghost g: map<Text, Node<Text>>,
                       ghost s0: Infos, ghost rank: map<Text, nat>)
    returns (ok: bool, ghost s0': Infos)
    requires hs.Keyed() && DepsIn(g, hs.Values()) && Walkthrough(w, g, s0, hs.Values(), rank, roots)
    requires forall n | n in leftovers :: n in hs.Targets
    modifies hs, hs.Targets.Values
    ensures s0' == Marked(s0, Chosen(old(hs.Values()), leftovers, true))
    ensures hs.Keyed() && fresh(hs.Targets.Values - old(hs.Targets.Values))
    ensures ok ==>
      && Underway(w, g, s0', hs.Values(), rank)
      && Grows(w, Marked(old(hs.Values()), Chosen(old(hs.Values()), leftovers, true)), hs.Values())
    ensures ok ==> HashedAmong(old(hs.Values()), hs.Values(), leftovers)
    ensures Readable(w, g, old(hs.Values())) ==> ok
  {
    hide Unstarted, Pictures, Shaped, Underway, DepsIn, Grows, Readable, Chosen, Marked, IsRoot, HashedAmong;
    ghost var s1 := hs.Values();
    ghost var names := Chosen(s1, leftovers, true);
    MarkRoots(hs, leftovers, true);
    MarkingKeeps(w, g, s1, names);
    MarkingKeepsWalk(w, g, s0, s1, rank, roots, names);
    s0' := Marked(s0, names);
    ok := HashNames(hs, w, leftovers, g, s0', rank);
    MarkedAmong(s1, names, hs.Values(), leftovers);
  }

  lemma MarkedAmong(s: Infos, names: set<Text>, s': Infos, list: seq<Text>)
    ensures HashedAmong(Marked(s, names), s', list) ==> HashedAmong(s, s', list)
  {
  }

  /** What the walk from the roots leaves: the targets it lists, and the rest. */
  ghost predicate Listed(s: Infos, rank: map<Text, nat>, roots: seq<Text>, order: seq<Text>, rest: seq<Text>) {
    && NoDuplicates(order + rest)
    && (forall n :: n in order <==> n in s && BelowSome(TableFrom(s), roots, n))
    && (forall n :: n in rest <==> n in s && n !in order)
    && (Descending(TableFrom(s), rank) ==> DepsFirst(TableFrom(s), order))
  }

  lemma ListedWithRest(s: Infos, rank: map<Text, nat>, roots: seq<Text>, order: seq<Text>, visited: set<Text>,
                       rest: seq<Text>)
    requires Tidy(TableFrom(s), visited, order)
    requires forall n :: n in order <==> n in s && BelowSome(TableFrom(s), roots, n)
    requires forall n :: n in visited <==> BelowSome(TableFrom(s), roots, n)
    requires Descending(TableFrom(s), rank) ==> DepsFirst(TableFrom(s), order)
    requires NoDuplicates(rest) && forall n :: n in rest <==> n in s && n !in visited
    ensures Listed(s, rank, roots, order, rest)
  {
    hide BelowSome, DepsFirst, Descending;
    var list := order + rest;
    forall i, j | 0 <= i < j < |list| ensures list[i] != list[j] {
      if i < |order| <= j {
        assert order[i] in order && rest[j - |order|] in rest;
      }
    }
  }

  lemma ListedWithoutRest(s: Infos, rank: map<Text, nat>, roots: seq<Text>, order: seq<Text>, visited: set<Text>)
    requires Tidy(TableFrom(s), visited, order) && |order| == |s.Keys|
    requires forall n :: n in order <==> n in s && BelowSome(TableFrom(s), roots, n)
    requires Descending(TableFrom(s), rank) ==> DepsFirst(TableFrom(s), order)
    ensures Listed(s, rank, roots, order, [])
  {
    hide BelowSome, DepsFirst, Descending;
    DistinctCount(order, s.Keys);
    assert order + [] == order;
  }

  /** The final state: everything of `s1` listed or left over, and hashed. */
  ghost predicate Finished(w: World, g: map<Text, Node<Text>>, s0: Infos, s1: Infos, s2: Infos, rank: map<Text, nat>,
                           rest: seq<Text>) {
    && Unstarted(s0) && Pictures(w, g, s0) && Shaped(s0) && Underway(w, g, s0, s2, rank)
    && s0.Keys <= s1.Keys && Grows(w, s1, s2) && HashedAmong(s1, s2, rest)
  }

  lemma AllHashed(w: World, g: map<Text, Node<Text>>, s0: Infos, s1: Infos, s2: Infos, rank: map<Text, nat>,
                  roots: seq<Text>, order: seq<Text>, rest: seq<Text>)
    requires Finished(w, g, s0, s1, s2, rank, rest) && Listed(s1, rank, roots, order, rest)
    requires forall n | n in order :: s1[n].hash.Some?
    ensures forall n | n in s2 :: s2[n].hash.Some?
  {
    hide NodeFor, Underway, Pictures, Shaped, BelowSome, DepsFirst, Descending, Unstarted;
    forall n | n in s2 ensures s2[n].hash.Some? {
      if n in s1 && n !in order {
        assert n in rest;
      }
    }
  }

  lemma HashesRight(w: World, g: map<Text, Node<Text>>, s0: Infos, s: Infos, rank: map<Text, nat>)
    requires Unstarted(s0) && Underway(w, g, s0, s, rank) && Ranked(g, rank)
    ensures forall n | n in s && s[n].hash.Some? :: HashIs(w, g, rank, n, s[n].hash)
  {
    hide Grows, ClosedSince, HashIs, Ranked;
  }

  lemma DepsOfListed(w: World, g: map<Text, Node<Text>>, s0: Infos, s1: Infos, s2: Infos, rank: map<Text, nat>, n: Text,
                     d: Text)
    requires Unstarted(s0) && Shaped(s0) && Underway(w, g, s0, s1, rank) && Grows(w, s1, s2)
    requires n in s1 && s1[n].hash.Some? && DependsOn(TableFrom(s2), n, d)
    ensures DependsOn(TableFrom(s1), n, d) && d in s1
  {
    hide NodeFor, SetsRight;
    GrownShape(w, s0, s1);
    assert HaveHashes(s1, Walked(s1[n]));
  }

  /** On an acyclic graph only missing source files are left over, so the whole
      list has dependencies first. */
  lemma OrderIsTopological(w: World, g: map<Text, Node<Text>>, s0: Infos, s1: Infos, s2: Infos, rank: map<Text, nat>,
                           roots: seq<Text>, order: seq<Text>, rest: seq<Text>)
    requires Walkthrough(w, g, s0, s1, rank, roots) && Listed(s1, rank, roots, order, rest) && Grows(w, s1, s2)
    requires Ranked(g, rank)
    ensures DepsFirst(TableFrom(s2), order + rest)
  {
    hide NodeFor, Pictures, SetsRight, ClosedSince, Ranked, BelowSome, IsRoot, Underway;
    UnderwayPictured(w, g, s0, s1, rank);
    RankedDescends(w, g, s1, rank);
    var list := order + rest;
    forall i | 0 <= i < |list| ensures DepsFirstAt(TableFrom(s2), list, i) {
      var n := list[i];
      forall d | DependsOn(TableFrom(s2), n, d) && d in TableFrom(s2) ensures d in list[..i] {
        if i < |order| {
          assert n in order;
          WalkthroughHashes(w, g, s0, s1, rank, roots, n);
          DepsOfListed(w, g, s0, s1, s2, rank, n, d);
          assert DepsFirstAt(TableFrom(s1), order, i);
          assert list[..i] == order[..i];
        } else {
          assert n == rest[i - |order|] && n in rest;
          if n in s0 {
            AcyclicReachesAll(w, g, s0, s1, rank, roots, n);
          }
          MissingHasNoDeps(w, g, s0, s1, s2, rank, n);
        }
      }
    }
  }

  lemma UnderwayPictured(w: World, g: map<Text, Node<Text>>, s0: Infos, s: Infos, rank: map<Text, nat>)
    requires Pictures(w, g, s0) && Shaped(s0) && Underway(w, g, s0, s, rank)
    ensures Pictures(w, g, s) && Shaped(s)
  {
    hide NodeFor, ClosedSince, SetsRight, Pictures, Shaped;
    PictureStays(w, g, s0, s);
    GrownShape(w, s0, s);
  }

  lemma MissingHasNoDeps(w: World, g: map<Text, Node<Text>>, s0: Infos, s1: Infos, s2: Infos, rank: map<Text, nat>,
                         n: Text)
    requires Underway(w, g, s0, s1, rank) && Grows(w, s1, s2) && n in s1 && n !in s0
    ensures n in s2 && s2[n].deps == []
  {
    hide NodeFor, ClosedSince, SetsRight;
  }

  /** The list covers the final targets once none was missing. */
  lemma CoversAll(w: World, g: map<Text, Node<Text>>, s0: Infos, s1: Infos, s2: Infos, rank: map<Text, nat>,
                  roots: seq<Text>, order: seq<Text>, rest: seq<Text>)
    requires Finished(w, g, s0, s1, s2, rank, rest) && Listed(s1, rank, roots, order, rest)
    ensures (forall n | n in order + rest :: n in s2) && (forall n | n in s0 :: n in order + rest)
    ensures SelfContained(g, s0) ==> forall n | n in s2 :: n in order + rest
  {
    hide NodeFor, ClosedSince, SetsRight, Pictures, Shaped, Unstarted, BelowSome, DepsFirst, Descending, HashedAmong;
  }

  lemma Done(w: World, g: map<Text, Node<Text>>, s0: Infos, s1: Infos, s2: Infos, rank: map<Text, nat>,
             roots: seq<Text>, order: seq<Text>, rest: seq<Text>)
    requires Walkthrough(w, g, s0, s1, rank, roots) && Listed(s1, rank, roots, order, rest)
    requires Finished(w, g, s0, s1, s2, rank, rest)
    ensures Complete(w, g, s0, s2, rank, order + rest)
  {
    hide Walkthrough, Finished, BelowSome, DepsFirst, Descending, HashIs, Ranked, SelfContained, AllRead, AllKept;
    forall n | n in order ensures s1[n].hash.Some? {
      WalkthroughHashes(w, g, s0, s1, rank, roots, n);
    }
    AllHashed(w, g, s0, s1, s2, rank, roots, order, rest);
    CoversAll(w, g, s0, s1, s2, rank, roots, order, rest);
    FinishedParts(w, g, s0, s1, s2, rank, rest);
    HashedWereRead(w, g, s0, s2, rank);
    if Ranked(g, rank) {
      HashesRight(w, g, s0, s2, rank);
      OrderIsTopological(w, g, s0, s1, s2, rank, roots, order, rest);
    }
  }

  lemma FinishedParts(w: World, g: map<Text, Node<Text>>, s0: Infos, s1: Infos, s2: Infos, rank: map<Text, nat>,
                      rest: seq<Text>)
    requires Finished(w, g, s0, s1, s2, rank, rest)
    ensures Unstarted(s0) && Shaped(s0) && Underway(w, g, s0, s2, rank) && Grows(w, s1, s2)
  {
  }

  lemma WalkIsFinished(w: World, g: map<Text, Node<Text>>, s0: Infos, s: Infos, rank: map<Text, nat>, roots: seq<Text>)
    requires Walkthrough(w, g, s0, s, rank, roots)
    ensures Finished(w, g, s0, s, s, rank, [])
  {
    hide NodeFor, ClosedSince, SetsRight, Pictures, Shaped, Unstarted;
    GrowsItself(w, s);
  }

  lemma SweptIsFinished(w: World, g: map<Text, Node<Text>>, s0: Infos, s1: Infos, s2: Infos, rank: map<Text, nat>,
                        roots: seq<Text>, rest: seq<Text>)
    requires Walkthrough(w, g, s0, s1, rank, roots) && Underway(w, g, s0, s2, rank) && Grows(w, s1, s2)
    requires HashedAmong(s1, s2, rest)
    ensures Finished(w, g, s0, s1, s2, rank, rest)
  {
    hide NodeFor, ClosedSince, SetsRight, Pictures, Shaped, Unstarted;
  }

  lemma MarkedListed(s: Infos, names: set<Text>, rank: map<Text, nat>, roots: seq<Text>, order: seq<Text>,
                     rest: seq<Text>)
    requires Listed(s, rank, roots, order, rest)
    ensures Listed(Marked(s, names), rank, roots, order, rest)
  {
    hide BelowSome, DepsFirst, Descending;
    assert TableFrom(Marked(s, names)) == TableFrom(s);
  }

  lemma MarkedKept(w: World, s0: Infos, names: set<Text>, s: Infos)
    requires AllKept(w, Marked(s0, names), s)
    ensures AllKept(w, s0, s)
  {
    forall n | n in s0 ensures OwnToStore(w, Marked(s0, names)[n]) == OwnToStore(w, s0[n]) {
    }
  }

  lemma MarkedComplete(w: World, g: map<Text, Node<Text>>, s0: Infos, names: set<Text>, s: Infos, rank: map<Text, nat>,
                       order: seq<Text>)
    requires Complete(w, g, Marked(s0, names), s, rank, order)
    ensures Complete(w, g, s0, s, rank, order)
  {
    hide DepsFirst, HashIs, Ranked, NoDuplicates;
    MarkedKept(w, s0, names, s);
    assert Marked(s0, names).Keys == s0.Keys;
  }

  lemma CompleteIsRead(w: World, g: map<Text, Node<Text>>, s0: Infos, s: Infos, rank: map<Text, nat>, order: seq<Text>)
    requires Complete(w, g, s0, s, rank, order)
    ensures AllRead(w, s0) && AllKept(w, s0, s)
  {
    hide AllRead, AllKept;
  }

  lemma ReadExactly(w: World, g: map<Text, Node<Text>>, s: Infos)
    requires Pictures(w, g, s) && Shaped(s)
    ensures AllRead(w, s) <==>
            && (forall n | n in s && s[n].ruleType == Ascii("source file") :: w.source(n).Ok?)
            && (forall n, d | n in s && d in s[n].deps && d !in s :: w.source(d).Ok? && !w.elsewhere(d))
    ensures AllRead(w, s) && (forall n | n in g :: n in s || exists m :: m in s && n in s[m].deps) ==> Readable(w, g, s)
  {
    hide Pictures, Shaped, Readable;
    if AllRead(w, s) && forall n | n in g :: n in s || exists m :: m in s && n in s[m].deps {
      ReadIsReadable(w, g, s);
    }
  }

  lemma KeptExactly(w: World, s: Infos, s': Infos)
    requires AllKept(w, s, s')
    ensures forall n | n in s ::
        && n in s' && s'[n] == s[n].(hash := s'[n].hash, root := s'[n].root, own := s'[n].own)
        && s'[n].own ==
           (if s[n].ruleType == Ascii("source file") || s[n].ruleType == Ascii("package group") ||
               s[n].ruleType == Ascii("generated file") then []
            else if s[n].own != [] then s[n].own else w.digest(RuleEncoding.RuleBytes(s[n].rule)))
  {
  }

  lemma MapSize<K, V>(m: map<K, V>)
    ensures |m| == |m.Keys|
  {
  }

  lemma RootsExist(s: Infos, roots: seq<Text>, table: Table)
    requires table.Keys == s.Keys && forall n | n in s :: table[n] == s[n].deps
    requires forall n :: n in roots <==> IsRoot(table, n)
    ensures (forall n :: n in roots <==> IsRoot(TableFrom(s), n)) && forall n | n in roots :: n in s
  {
    assert table == TableFrom(s);
  }

  lemma MarkedAmongKeys(s: Infos, names: set<Text>, s': Infos, list: seq<Text>)
    requires HashedAmong(s, s', list)
    ensures HashedAmong(Marked(s, names), s', list)
  {
  }

  /** The run that found targets no root leads to, and hashed them as well. */
  lemma EndedWithRest(w: World, g: map<Text, Node<Text>>, s: Infos, named: set<Text>, s1: Infos, left: set<Text>,
                      s2: Infos,
                      rank: map<Text, nat>, roots: seq<Text>, order: seq<Text>, rest: seq<Text>)
    requires Walkthrough(w, g, Marked(s, named), s1, rank, roots) && Listed(s1, rank, roots, order, rest)
    requires Underway(w, g, Marked(Marked(s, named), left), s2, rank) && Grows(w, Marked(s1, left), s2)
    requires HashedAmong(s1, s2, rest)
    ensures Complete(w, g, s, s2, rank, order + rest)
  {
    hide Walkthrough, Listed, Finished, Complete, Underway, Grows, HashedAmong, Marked, BelowSome, DepsFirst,
      Descending;
    var s0 := Marked(s, named);
    MarkedAmongKeys(s1, left, s2, rest);
    MarkingKeepsWalk(w, g, s0, s1, rank, roots, left);
    SweptIsFinished(w, g, Marked(s0, left), Marked(s1, left), s2, rank, roots, rest);
    MarkedListed(s1, left, rank, roots, order, rest);
    Done(w, g, Marked(s0, left), Marked(s1, left), s2, rank, roots, order, rest);
    MarkedComplete(w, g, s0, left, s2, rank, order + rest);
    MarkedComplete(w, g, s, named, s2, rank, order + rest);
  }

  /** The run whose roots lead to every target. */
  lemma EndedAtRoots(w: World, g: map<Text, Node<Text>>, s: Infos, named: set<Text>, s1: Infos, rank: map<Text, nat>,
                     roots: seq<Text>, order: seq<Text>)
    requires Walkthrough(w, g, Marked(s, named), s1, rank, roots) && Listed(s1, rank, roots, order, [])
    ensures Complete(w, g, s, s1, rank, order)
  {
    hide Walkthrough, Listed, Finished, Complete, Marked, BelowSome, DepsFirst, Descending;
    WalkIsFinished(w, g, Marked(s, named), s1, rank, roots);
    Done(w, g, Marked(s, named), s1, s1, rank, roots, order, []);
    MarkedComplete(w, g, s, named, s1, rank, order + []);
    assert order + [] == order;
  }

  // ---- Which targets are marked, and what comes last ----

  /** No target depends on `n`. */
  ghost predicate IsTop(s: Infos, n: Text) {
    n in s && forall m | m in s :: n !in s[m].deps
  }

  /** Each name on the path is a dependency of the one before it. */
  ghost predicate Joined(s: Infos, path: seq<Text>) {
    path != [] && forall i | 0 <= i < |path| - 1 :: path[i] in s && path[i + 1] in s[path[i]].deps
  }

  ghost predicate FromTop(s: Infos, n: Text) {
    exists path :: Joined(s, path) && IsTop(s, path[0]) && path[|path| - 1] == n
  }

  /** What the walk left is marked, and listed last in order. */
  ghost predicate LeftOver(w: World, s: Infos, s': Infos, roots: seq<Text>, order: seq<Text>, left: seq<Text>) {
    && Grows(w, Marked(s, Chosen(s, left, true)), s')
    && (forall n :: n in left <==> n in s && !BelowSome(TableFrom(s), roots, n))
    && |left| <= |order| && order[|order| - |left|..] == left
    && (forall n | n in order[..|order| - |left|] :: BelowSome(TableFrom(s), roots, n))
    && NoDuplicates(left) && Sorted((a, b) => LessEq(a, b), left)
  }

  lemma RestIsLeft(w: World, s: Infos, s': Infos, rank: map<Text, nat>, roots: seq<Text>, order: seq<Text>,
                   rest: seq<Text>)
    requires Listed(s, rank, roots, order, rest) && Grows(w, Marked(s, Chosen(s, rest, true)), s')
    requires NoDuplicates(rest) && Sorted((a, b) => LessEq(a, b), rest)
    ensures LeftOver(w, s, s', roots, order + rest, rest)
  {
    hide BelowSome, DepsFirst, Descending, Grows, Marked, Chosen, NoDuplicates, Sorted;
    assert (order + rest)[|order|..] == rest && (order + rest)[..|order|] == order;
  }

  lemma NoneIsLeft(w: World, s: Infos, rank: map<Text, nat>, roots: seq<Text>, order: seq<Text>)
    requires Listed(s, rank, roots, order, [])
    ensures LeftOver(w, s, s, roots, order, [])
  {
    hide BelowSome, DepsFirst, Descending, Grows;
    NothingMarked(s, true);
    GrowsItself(w, s);
    assert order[..|order|] == order;
  }

  lemma {:induction false} StepsOfPath(s: Infos, path: seq<Text>)
    requires Joined(s, path)
    ensures Steps(TableFrom(s), path[0], path[|path| - 1], |path| - 1)
    decreases |path|
  {
    if |path| > 1 {
      var front := path[..|path| - 1];
      assert Joined(s, front);
      StepsOfPath(s, front);
      assert DependsOn(TableFrom(s), path[|path| - 2], path[|path| - 1]);
    }
  }

  /** Steps among the targets of a grown map run through the given ones. */
  lemma {:induction false} PathOfSteps(w: World, s: Infos, s': Infos, a: Text, b: Text, k: nat)
    returns (path: seq<Text>)
    requires Grows(w, s, s') && Steps(TableFrom(s'), a, b, k)
    ensures Joined(s, path) && path[0] == a && path[|path| - 1] == b
    decreases k
  {
    hide NodeFor;
    if k == 0 {
      path := [a];
    } else {
      var c :| Steps(TableFrom(s'), a, c, k - 1) && DependsOn(TableFrom(s'), c, b);
      var front := PathOfSteps(w, s, s', a, c, k - 1);
      path := front + [b];
      assert c in s && b in s[c].deps;
    }
  }

  /** The walk from the roots reaches what a path from a top target does. */
  lemma ReachedFromTop(w: World, s: Infos, s': Infos, roots: seq<Text>, n: Text)
    requires Grows(w, s, s') && forall r :: r in roots <==> IsRoot(TableFrom(s), r)
    ensures BelowSome(TableFrom(s'), roots, n) <==> FromTop(s, n)
  {
    hide Grows, Steps;
    TopsAreRoots(s);
    if BelowSome(TableFrom(s'), roots, n) {
      var k :| 0 <= k < |roots| && Below(TableFrom(s'), roots[k], n);
      assert roots[k] in roots;
      var m: nat :| Steps(TableFrom(s'), roots[k], n, m);
      var path := PathOfSteps(w, s, s', roots[k], n, m);
    }
    if FromTop(s, n) {
      var path :| Joined(s, path) && IsTop(s, path[0]) && path[|path| - 1] == n;
      StepsOfPath(s, path);
      StepsGrow(w, s, s', path[0], n, |path| - 1);
      assert Below(TableFrom(s'), path[0], n);
      assert path[0] in roots;
    }
  }

  lemma TopsAreRoots(s: Infos)
    ensures forall n :: IsTop(s, n) <==> IsRoot(TableFrom(s), n)
  {
    forall n | IsTop(s, n) ensures IsRoot(TableFrom(s), n) {
    }
    forall n | IsRoot(TableFrom(s), n) ensures IsTop(s, n) {
      forall m | m in s ensures n !in s[m].deps {
        assert !DependsOn(TableFrom(s), m, n);
      }
    }
  }

  lemma MarkedTop(s: Infos, names: set<Text>, n: Text)
    ensures IsTop(Marked(s, names), n) <==> IsTop(s, n)
  {
    var t := Marked(s, names);
    assert t.Keys == s.Keys;
    if IsTop(t, n) {
      forall m | m in s ensures n !in s[m].deps {
        assert n !in t[m].deps;
      }
    }
  }

  lemma MarkedPaths(s: Infos, names: set<Text>, n: Text)
    ensures IsTop(Marked(s, names), n) <==> IsTop(s, n)
    ensures FromTop(Marked(s, names), n) ==> FromTop(s, n)
  {
    hide IsTop;
    var t := Marked(s, names);
    MarkedTop(s, names, n);
    if FromTop(t, n) {
      var path :| Joined(t, path) && IsTop(t, path[0]) && path[|path| - 1] == n;
      MarkedTop(s, names, path[0]);
      assert Joined(s, path);
    }
  }

  lemma UnmarkedPaths(s: Infos, names: set<Text>, n: Text)
    requires FromTop(s, n)
    ensures FromTop(Marked(s, names), n)
  {
    var t := Marked(s, names);
    var path :| Joined(s, path) && IsTop(s, path[0]) && path[|path| - 1] == n;
    MarkedTop(s, names, path[0]);
    assert Joined(t, path);
  }

  /** What the walk from the roots reaches, in terms of the given map. */
  lemma WalkReaches(w: World, g: map<Text, Node<Text>>, s: Infos, named: set<Text>, s1: Infos, rank: map<Text, nat>,
                    roots: seq<Text>, n: Text)
    requires Walkthrough(w, g, Marked(s, named), s1, rank, roots)
    ensures Grows(w, Marked(s, named), s1)
    ensures BelowSome(TableFrom(s1), roots, n) <==> FromTop(s, n)
    ensures n in roots <==> IsTop(s, n)
  {
    hide Marked, Grows, IsTop, FromTop, BelowSome, TableFrom, IsRoot, Pictures, Shaped, Unstarted, HashedAmong,
      ClosedSince, SetsRight, Ranked;
    ReachedFromTop(w, Marked(s, named), s1, roots, n);
    TopsAreRoots(Marked(s, named));
    MarkedPaths(s, named, n);
    if FromTop(s, n) {
      UnmarkedPaths(s, named, n);
    }
  }

  /** The mark of one target, through both rounds of marking. */
  lemma MarkOf(w: World, s: Infos, s1: Infos, s2: Infos, roots: seq<Text>, left: seq<Text>, n: Text)
    requires Grows(w, Marked(s, Chosen(s, roots, false)), s1) && Grows(w, Marked(s1, Chosen(s1, left, true)), s2)
    requires n in s
    ensures n in s1 && n in s2
    ensures s2[n].root <==> s[n].root || (n in roots && CanBeRoot(s[n].ruleType)) || n in left
  {
    hide NodeFor, CanBeRoot;
  }

  lemma MarksAreRoots(w: World, g: map<Text, Node<Text>>, s: Infos, named: set<Text>, s1: Infos, s2: Infos,
                      rank: map<Text, nat>, roots: seq<Text>, order: seq<Text>, left: seq<Text>)
    requires Walkthrough(w, g, Marked(s, named), s1, rank, roots) && named == Chosen(s, roots, false)
    requires LeftOver(w, s1, s2, roots, order, left)
    ensures forall n | n in s ::
        && n in s2
        && (s2[n].root <==>
            || s[n].root
            || (IsTop(s, n) && s[n].ruleType != Ascii("source file") && s[n].ruleType != Ascii("package group"))
            || !FromTop(s, n))
    ensures forall i, j | 0 <= i < j < |order| && !FromTop(s, order[i]) ::
        !FromTop(s, order[j]) && Less(order[i], order[j])
  {
    hide Walkthrough, Grows, Marked, Chosen, BelowSome, TableFrom, IsTop, FromTop, NoDuplicates, Sorted;
    forall n | n in s
      ensures n in s2
      ensures s2[n].root <==>
              || s[n].root
              || (IsTop(s, n) && s[n].ruleType != Ascii("source file") && s[n].ruleType != Ascii("package group"))
              || !FromTop(s, n)
    {
      WalkReaches(w, g, s, named, s1, rank, roots, n);
      MarkOf(w, s, s1, s2, roots, left, n);
    }
    LeftComesLast(w, g, s, named, s1, s2, rank, roots, order, left);
  }

  lemma LeftComesLast(w: World, g: map<Text, Node<Text>>, s: Infos, named: set<Text>, s1: Infos, s2: Infos,
                      rank: map<Text, nat>, roots: seq<Text>, order: seq<Text>, left: seq<Text>)
    requires Walkthrough(w, g, Marked(s, named), s1, rank, roots) && LeftOver(w, s1, s2, roots, order, left)
    ensures forall i, j | 0 <= i < j < |order| && !FromTop(s, order[i]) ::
        !FromTop(s, order[j]) && Less(order[i], order[j])
  {
    hide Walkthrough, Grows, Marked, Chosen, BelowSome, TableFrom, IsTop, FromTop;
    var front := |order| - |left|;
    forall i, j | 0 <= i < j < |order| && !FromTop(s, order[i])
      ensures !FromTop(s, order[j]) && Less(order[i], order[j])
    {
      assert i < front ==> order[i] in order[..front];
      WalkReaches(w, g, s, named, s1, rank, roots, order[i]);
      WalkReaches(w, g, s, named, s1, rank, roots, order[j]);
      assert order[front..][i - front] == order[i] && order[front..][j - front] == order[j];
      var leq := (a: Text, b: Text) => LessEq(a, b);
      assert leq(left[i - front], left[j - front]);
    }
  }

  /** The first half: roots marked, and everything hashed that is asked for and
      below them. */
  method HashBelowRoots(hs: Hasher, w: World, sequential: seq<Text>, ghost g: map<Text, Node<Text>>,
                        ghost rank: map<Text, nat>)
    returns (ok: bool, roots: seq<Text>, ghost named: set<Text>)
    requires hs.Keyed() && Unstarted(hs.Values()) && Pictures(w, g, hs.Values()) && Shaped(hs.Values())
    modifies hs, hs.Targets.Values
    ensures hs.Keyed() && DepsIn(g, hs.Values()) && fresh(hs.Targets.Values - old(hs.Targets.Values))
    ensures ok ==> Walkthrough(w, g, Marked(old(hs.Values()), named), hs.Values(), rank, roots)
    ensures named == Chosen(old(hs.Values()), roots, false)
    ensures Readable(w, g, old(hs.Values())) ==> ok && Readable(w, g, hs.Values())
  {
    hide Unstarted, Pictures, Shaped, Readable, Marked, Chosen, Walkthrough, TableFrom, DepsIn, IsRoot;
    ghost var s := hs.Values();
    var table := map n | n in hs.Targets :: hs.Targets[n].Deps;
    roots := TopologicalRoots(table);
    RootsExist(s, roots, table);
    named := Chosen(s, roots, false);
    MarkRoots(hs, roots, false);
    MarkingKeeps(w, g, s, named);
    ok := HashFromRoots(hs, w, sequential, roots, g, hs.Values(), rank);
  }

  /** What the walk from the roots did not list, hashed and listed after it. */
  method HashRest(hs: Hasher, w: World, roots: seq<Text>, order: seq<Text>, rest: seq<Text>,
                  ghost g: map<Text, Node<Text>>, ghost s: Infos, ghost named: set<Text>, ghost rank: map<Text, nat>)
    returns (r: Result<seq<Text>>)
    requires hs.Keyed() && DepsIn(g, hs.Values()) && Walkthrough(w, g, Marked(s, named), hs.Values(), rank, roots)
    requires Listed(hs.Values(), rank, roots, order, rest)
    requires NoDuplicates(rest) && Sorted((a, b) => LessEq(a, b), rest) && forall n | n in rest :: n in hs.Targets
    modifies hs, hs.Targets.Values
    ensures r.Ok? ==> Complete(w, g, s, hs.Values(), rank, r.value)
    ensures r.Ok? ==> LeftOver(w, old(hs.Values()), hs.Values(), roots, r.value, rest)
    ensures Readable(w, g, old(hs.Values())) ==> r.Ok?
  {
    hide Readable, Marked, Chosen, Walkthrough, Listed, Complete, TableFrom, Underway, Grows, DepsIn, HashedAmong,
      LeftOver, NoDuplicates, Sorted;
    ghost var s1 := hs.Values();
    var ok;
    ghost var s0';
    ok, s0' := HashLeftovers(hs, w, rest, roots, g, Marked(s, named), rank);
    if !ok {
      return Err;
    }
    RestIsLeft(w, s1, hs.Values(), rank, roots, order, rest);
    EndedWithRest(w, g, s, named, s1, Chosen(s1, rest, true), hs.Values(), rank, roots, order, rest);
    r := Ok(order + rest);
  }

  lemma RestExists(s: Infos, rank: map<Text, nat>, roots: seq<Text>, order: seq<Text>, rest: seq<Text>)
    requires Listed(s, rank, roots, order, rest)
    ensures forall n | n in rest :: n in s
  {
    hide BelowSome, DepsFirst, Descending;
  }

  /** The second half: the list, and whatever no root leads to. */
  method HashAndList(hs: Hasher, w: World, roots: seq<Text>, ghost g: map<Text, Node<Text>>, ghost s: Infos,
                     ghost named: set<Text>, ghost rank: map<Text, nat>)
    returns (r: Result<seq<Text>>, ghost left: seq<Text>)
    requires hs.Keyed() && DepsIn(g, hs.Values()) && Walkthrough(w, g, Marked(s, named), hs.Values(), rank, roots)
    modifies hs, hs.Targets.Values
    ensures r.Ok? ==> Complete(w, g, s, hs.Values(), rank, r.value)
    ensures r.Ok? ==> LeftOver(w, old(hs.Values()), hs.Values(), roots, r.value, left)
    ensures Readable(w, g, old(hs.Values())) ==> r.Ok?
  {
    hide Readable, Marked, Chosen, Walkthrough, Listed, Complete, TableFrom, Tidy, BelowSome, DepsFirst, Descending,
      Underway, Grows, DepsIn, HashedAmong, LeftOver, WalkAll, NoDuplicates, Sorted;
    left := [];
    var order, visited := ListFromRoots(hs, roots, rank);
    ghost var s1 := hs.Values();
    assert s1.Keys == hs.Targets.Keys;
    if |order| != |hs.Targets| {
      var rest := Unvisited(hs.Targets.Keys, visited);
      ListedWithRest(s1, rank, roots, order, visited, rest);
      RestExists(s1, rank, roots, order, rest);
      left := rest;
      r := HashRest(hs, w, roots, order, rest, g, s, named, rank);
    } else {
      MapSize(hs.Targets);
      ListedWithoutRest(s1, rank, roots, order, visited);
      EndedAtRoots(w, g, s, named, s1, rank, roots, order);
      NoneIsLeft(w, s1, rank, roots, order);
      r := Ok(order);
    }
  }

  /** Marks roots, hashes everything and lists it. Every target that the map
      ends up with is hashed; the list holds every target once, dependencies
      first and hashes full on an acyclic graph, whatever comes of cycles. */
  method HashGraph(hs: Hasher, w: World, sequential: seq<Text>, ghost g: map<Text, Node<Text>>,
                   ghost rank: map<Text, nat>)
    returns (r: Result<seq<Text>>)
    requires hs.Keyed() && Unstarted(hs.Values()) && Pictures(w, g, hs.Values()) && Shaped(hs.Values())
    modifies hs, hs.Targets.Values
    ensures r.Ok? ==> Complete(w, g, old(hs.Values()), hs.Values(), rank, r.value)
    ensures r.Ok? ==> forall n | n in old(hs.Values()) ::
        var s := old(hs.Values());
        && n in hs.Values()
        && (hs.Values()[n].root <==>
            || s[n].root
            || (IsTop(s, n) && s[n].ruleType != Ascii("source file") && s[n].ruleType != Ascii("package group"))
            || !FromTop(s, n))
    ensures r.Ok? ==> forall n | n in old(hs.Values()) ::
        var s := old(hs.Values());
        && hs.Values()[n] == s[n].(hash := hs.Values()[n].hash, root := hs.Values()[n].root, own := hs.Values()[n].own)
        && hs.Values()[n].own ==
           (if s[n].ruleType == Ascii("source file") || s[n].ruleType == Ascii("package group") ||
               s[n].ruleType == Ascii("generated file") then []
            else if s[n].own != [] then s[n].own else w.digest(RuleEncoding.RuleBytes(s[n].rule)))
    ensures r.Ok? ==> forall i, j | 0 <= i < j < |r.value| && !FromTop(old(hs.Values()), r.value[i]) ::
        !FromTop(old(hs.Values()), r.value[j]) && Less(r.value[i], r.value[j])
    ensures Readable(w, g, old(hs.Values())) ==> r.Ok?
    ensures var s := old(hs.Values());
      (forall n | n in g :: n in s || exists m :: m in s && n in s[m].deps) ==>
        (r.Ok? <==>
         && (forall n | n in s && s[n].ruleType == Ascii("source file") :: w.source(n).Ok?)
         && (forall n, d | n in s && d in s[n].deps && d !in s :: w.source(d).Ok? && !w.elsewhere(d)))
  {
    hide Unstarted, Pictures, Shaped, Readable, Marked, Walkthrough, Complete, DepsIn, Chosen, LeftOver, IsTop, FromTop,
      AllRead, AllKept;
    ghost var s := hs.Values();
    ReadExactly(w, g, s);
    var ok, roots;
    ghost var named;
    ok, roots, named := HashBelowRoots(hs, w, sequential, g, rank);
    if !ok {
      return Err;
    }
    ghost var s1 := hs.Values();
    ghost var left;
    r, left := HashAndList(hs, w, roots, g, s, named, rank);
    if r.Ok? {
      MarksAreRoots(w, g, s, named, s1, hs.Values(), rank, roots, r.value, left);
      CompleteIsRead(w, g, s, hs.Values(), rank, r.value);
      KeptExactly(w, s, hs.Values());
    }
  }
}
