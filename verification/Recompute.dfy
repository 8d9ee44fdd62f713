/** Updating a stored graph and hashing the new target map from scratch: one
    content and the same hash for every target. */
module Recompute {
  import opened Wrappers
  import opened ByteStrings
  import opened Sorting
  import opened Merkle
  import opened ItgState
  import opened ItgContent
  import opened ItgGraph
  import opened ItgBatch
  import opened ItgOutcome
  import opened ItgOptimize
  import opened HashAgreement
  import FullGraph
  import Toposort
  import FH = FullHasher

  /** The batch describes how to get from `c` to `c'`: the query lists what is new
      or differs, what is gone is deleted, and nothing that stays unlisted is
      deleted or depends on something deleted. */
  ghost predicate Leads(c: Content, change: Change, c': Content) {
    && (forall n | n in change.targets :: n in c' && c'[n] == NewEntry(change.targets[n]))
    && (forall n | n in c && n !in c' :: TakenOut(c, change, n))
    && (forall n | n in c' && n !in change.targets ::
          && n in c && c'[n] == c[n] && !TakenOut(c, change, n)
          && forall d | d in c[n].deps :: !TakenOut(c, change, d))
  }

  lemma RemainingAt(c: Content, change: Change, n: Text)
    ensures n in Remaining(c, change) <==> n in c && !TakenOut(c, change, n)
    ensures n in Remaining(c, change) && (forall d | d in c[n].deps :: !TakenOut(c, change, d)) ==>
      Remaining(c, change)[n] == c[n]
  {
    hide Vanished;
    var kept := WithoutAll(c, change.deletedSrcFiles);
    var gone := set m | m in kept && Vanished(change, m);
    if n in Remaining(c, change) && forall d | d in c[n].deps :: !TakenOut(c, change, d) {
      assert c[n].deps - change.deletedSrcFiles - gone == c[n].deps;
    }
  }

  /** Such a batch does get there. */
  lemma LeadsThere(c: Content, change: Change, c': Content)
    requires Leads(c, change, c')
    ensures AllUpdated(c, change) == c'
  {
    hide Remaining, TakenOut, NewEntry;
    var all := AllUpdated(c, change);
    forall n ensures n in all <==> n in c' {
      RemainingAt(c, change, n);
    }
    forall n | n in c' ensures all[n] == c'[n] {
      RemainingAt(c, change, n);
    }
  }

  /** The content says of every target what the full hasher reads of it. */
  ghost predicate DescribesAll(w: FH.World, s: FH.Infos, c: Content) {
    && s.Keys == c.Keys
    && forall m | m in s ::
         Describes(w, m, s[m], c[m]) && Sorted((a, b) => LessEq(a, b), s[m].deps) && NoDuplicates(s[m].deps)
  }

  /** Described content is acyclic when the map is, and has no orphans. */
  lemma DescribedIsSettled(w: FH.World, pg: map<Text, Node<Text>>, rank: map<Text, nat>, s: FH.Infos, c: Content)
    requires FH.Pictures(w, pg, s) && pg.Keys == s.Keys && FullGraph.Shaped(s) && Ranked(pg, rank)
    requires DescribesAll(w, s, c)
    ensures Settled(c) && pg == NamedNodes(c)
    ensures forall n, d | n in c && d in c[n].deps :: d in c
  {
    assert pg == NamedNodes(c) by {
      hide Describes, NamedNode, FH.NodeFor, Ranked, FullGraph.Shaped;
      forall n | n in pg ensures pg[n] == NamedNode(c[n]) {
        NodesAgree(w, n, s[n], c[n]);
      }
    }
    forall n, d | n in c && d in c[n].deps ensures d in c {
      OneDep(w, n, s[n], c[n]);
      NamedDeps(c[n]);
      assert d in DepsOf(pg[n]);
    }
    forall n | n in c && c[n].ruleType == GENERATED_FILE ensures c[n].deps != {} {
      assert s[n].deps[0] in c[n].deps;
    }
  }

  lemma OneDep(w: FH.World, n: Text, t: FH.Info, e: Entry)
    requires Describes(w, n, t, e) && (IsLeafType(t.ruleType) ==> t.deps == [])
    ensures IsLeafType(e.ruleType) ==> e.deps == {}
    ensures e.ruleType == GENERATED_FILE ==> |e.deps| <= 1
  {
    if t.ruleType == GENERATED_FILE {
      assert e.deps == {t.deps[0]};
    }
  }

  lemma QueryFits(c: Content, change: Change, c': Content)
    requires Leads(c, change, c') && forall n, d | n in c' && d in c'[n].deps :: d in c'
    ensures Fits(Remaining(c, change), change.targets)
  {
    hide Remaining, TakenOut;
    forall n, d | n in change.targets && d in change.targets[n].deps
      ensures d in Remaining(c, change) || d in change.targets
    {
      assert d in c'[n].deps;
      RemainingAt(c, change, d);
    }
  }

  lemma SameHash(h: Digest, pg: map<Text, Node<Text>>, rank: map<Text, nat>, s: State, n: Text)
    requires Good(h, s, {}) && Ranked(pg, rank) && pg == NamedNodes(ContentOf(s)) && n in pg
    ensures n in s.nameToID && s.nameToID[n] in s.targets
    ensures s.targets[s.nameToID[n]].hash == Some(Hash(h, pg, rank, n))
  {
    assert n in ContentOf(s);
    assert Acyclic(pg);
    HashesFollowContent(h, s, s.nameToID[n]);
    assert s.Name(s.nameToID[n]) == n;
    HashIgnoresRank(h, pg, RankOf(pg), rank, n);
  }

  lemma StoredHash(g: OptimizedGraph, n: Text)
    requires n in g.Abs().nameToID && g.Abs().nameToID[n] in g.Abs().targets
    ensures n in g.TargetNameToID && g.TargetNameToID[n] in g.OptimizedTargets
    ensures g.OptimizedTargets[g.TargetNameToID[n]].Hash == g.Abs().targets[g.Abs().nameToID[n]].hash
  {
  }

  lemma ComputedHash(hs: FH.Hasher, w: FH.World, pg: map<Text, Node<Text>>, s0: FH.Infos, rank: map<Text, nat>,
                     order: seq<Text>, n: Text)
    requires FullGraph.Complete(w, pg, s0, hs.Values(), rank, order) && Ranked(pg, rank) && n in s0 && n in pg
    ensures n in hs.Targets && hs.Targets[n].Hash == Some(Hash(w.digest, pg, rank, n))
  {
    hide Toposort.DepsFirst;
    assert n in order && n in hs.Values();
    assert FH.HashIs(w, pg, rank, n, hs.Values()[n].hash);
  }

  lemma NamesOfSource(source: Source, n: Text)
    ensures n in SourceContent(source) <==> n in source
  {
  }

  lemma DescribedNames(w: FH.World, s: FH.Infos, c: Content)
    requires DescribesAll(w, s, c)
    ensures s.Keys == c.Keys
  {
  }

  /** Applies the batch to the stored graph and hashes the new target map from
      scratch. Both succeed, the stored content is the one `OptimizeGraph` builds
      from the new map, and every target has one hash in both. */
  method UpdateAndRecompute(g: OptimizedGraph, change: Change, hs: FH.Hasher, w: FH.World, sequential: seq<Text>,
                            ghost source: Source, ghost pg: map<Text, Node<Text>>, ghost rank: map<Text, nat>)
    returns (ok: bool)
    requires g.Keyed() && Good(w.digest, g.Abs(), {}) && Queried(change.targets)
    requires hs.Keyed() && FullGraph.Unstarted(hs.Values()) && FullGraph.Shaped(hs.Values())
    requires FH.Pictures(w, pg, hs.Values()) && pg.Keys == hs.Values().Keys && Ranked(pg, rank)
    requires FH.Readable(w, pg, hs.Values())
    requires DescribesAll(w, hs.Values(), SourceContent(source))
    requires Leads(ContentOf(g.Abs()), change, SourceContent(source))
    modifies g, g.OptimizedTargets.Values, hs, hs.Targets.Values
    ensures fresh(g.OptimizedTargets.Values - old(g.OptimizedTargets.Values))
    ensures ok && g.Keyed() && Good(w.digest, g.Abs(), {}) && ContentOf(g.Abs()) == SourceContent(source)
    ensures forall n | n in source ::
        && n in g.TargetNameToID && g.TargetNameToID[n] in g.OptimizedTargets
        && n in hs.Targets && hs.Targets[n].Hash.Some?
        && g.OptimizedTargets[g.TargetNameToID[n]].Hash == hs.Targets[n].Hash
  {
    hide *;
    ghost var c, c' := ContentOf(g.Abs()), SourceContent(source);
    DescribedIsSettled(w, pg, rank, hs.Values(), c');
    LeadsThere(c, change, c');
    QueryFits(c, change, c');
    ghost var before := hs.Values();
    var order := FullGraph.HashGraph(hs, w, sequential, pg, rank);
    DescribedNames(w, before, c');
    ok := UpdateGraph(g, w.digest, change);
    forall n | n in source
      ensures n in g.TargetNameToID && g.TargetNameToID[n] in g.OptimizedTargets
      ensures n in hs.Targets && hs.Targets[n].Hash.Some?
      ensures g.OptimizedTargets[g.TargetNameToID[n]].Hash == hs.Targets[n].Hash
    {
      NamesOfSource(source, n);
      SameHash(w.digest, pg, rank, g.Abs(), n);
      StoredHash(g, n);
      ComputedHash(hs, w, pg, before, rank, order.value, n);
    }
  }
}
