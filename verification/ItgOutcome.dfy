/** What a batch leaves of the content: exactly when dependents keep their edges,
    when every target of the query is stored, and when no generated file is left
    without its rule, with a batch that fails each. */
module ItgOutcome {
  import opened Wrappers
  import opened ByteStrings
  import opened Merkle
  import opened ItgState
  import opened ItgContent
  import opened ItgBatch
  import Toposort

  // ---- Dependents' edges ----

  /** A batch takes `name` out of the content, if only to store it again. */
  ghost predicate TakenOut(c: Content, change: Change, name: Text) {
    name in change.deletedSrcFiles || (name in c && Vanished(change, name))
  }

  /** A target that the batch does not touch keeps all its dependencies exactly
      when none of them is taken out, whether or not the query stores it again. */
  lemma EdgesAreKept(c: Content, change: Change, n: Text)
    requires n in Remaining(c, change) && n !in Listed(change.targets)
    ensures n in c && n in Updated(c, change)
    ensures Updated(c, change)[n].deps == c[n].deps <==> forall d | d in c[n].deps :: !TakenOut(c, change, d)
  {
    hide Vanished, Listed;
    var kept := WithoutAll(c, change.deletedSrcFiles);
    var gone := set m | m in kept && Vanished(change, m);
    assert Updated(c, change)[n].deps == c[n].deps - change.deletedSrcFiles - gone;
  }

  const LIB: Text := [47, 47, 112, 58, 108]
  const APP: Text := [47, 47, 113, 58, 97]
  const PACKAGE: Text := [112]
  const LIBRARY: Text := [108]

  function RuleEntry(deps: set<Text>): Entry {
    Entry(LIBRARY, None, Some([1]), deps)
  }

  function QueryRule(name: Text, deps: seq<Text>): NewTarget {
    NewTarget(name, None, Some([1]), LIBRARY, deps)
  }

  /** //q:a depends on //p:l. */
  function AppOnLib(): Content {
    map[LIB := RuleEntry({}), APP := RuleEntry({LIB})]
  }

  /** Package p is reported deleted, yet the query lists //p:l. */
  function DeletedYetListed(): Change {
    Change({}, {}, {PACKAGE}, map[LIB := QueryRule(LIB, [])])
  }

  lemma PackagesOfBoth()
    ensures PackageOf(LIB) == [112] && PackageOf(APP) == [113]
  {
    assert LIB[1..][1..][1..][0] == 58 && APP[1..][1..][1..][0] == 58;
    assert IndexOf(LIB[1..][1..][1..], 58) == 0 && IndexOf(APP[1..][1..][1..], 58) == 0;
    assert IndexOf(LIB[1..][1..], 58) == 1 && IndexOf(APP[1..][1..], 58) == 1;
    assert IndexOf(LIB, 58) == 3 && IndexOf(APP, 58) == 3;
  }

  lemma LibraryIsRule()
    ensures !IsLeafType(LIBRARY) && LIBRARY != GENERATED_FILE
  {
    assert |LIBRARY| == 1 && |SOURCE_FILE| == |Ascii("source file")| && |PACKAGE_GROUP| == |Ascii("package group")|;
    assert |GENERATED_FILE| == |Ascii("generated file")|;
  }

  lemma RemainingOfBoth()
    ensures Remaining(AppOnLib(), DeletedYetListed()) == map[APP := RuleEntry({})]
  {
    var c, change := AppOnLib(), DeletedYetListed();
    PackagesOfBoth();
    assert LIB[2] != APP[2] && PACKAGE[0] == 112;
    hide PackageOf;
    var kept := WithoutAll(c, {});
    WithoutNothing(c);
    assert Vanished(change, LIB) && !Vanished(change, APP);
    assert (set n | n in c && Vanished(change, n)) == {LIB};
    assert c[APP].deps - {LIB} == {};
  }

  lemma NewRule()
    ensures NewEntry(QueryRule(LIB, [])) == RuleEntry({})
  {
    LibraryIsRule();
    hide IsLeafType;
    assert NewEntry(QueryRule(LIB, [])).deps == {};
  }

  lemma BothQueried(c: Content)
    ensures Queried(DeletedYetListed().targets) && Fits(c, DeletedYetListed().targets)
  {
    LibraryIsRule();
    hide IsLeafType;
  }

  lemma OutcomeOfBoth(c: Content, change: Change)
    requires c == AppOnLib() && change == DeletedYetListed()
    ensures Queried(change.targets) && Fits(Remaining(c, change), change.targets)
    ensures AllUpdated(c, change) == map[LIB := RuleEntry({}), APP := RuleEntry({})]
  {
    hide Remaining, NewEntry, RuleEntry, QueryRule, Queried, Fits;
    BothQueried(Remaining(c, change));
    NewRule();
    RemainingOfBoth();
    assert LIB[2] != APP[2];
  }

  /** The query is in order and the library is stored again, yet its dependent no
      longer depends on it. */
  lemma RelistedPackageLosesEdge(c: Content, change: Change)
    requires c == AppOnLib() && change == DeletedYetListed()
    ensures Queried(change.targets) && Fits(Remaining(c, change), change.targets) && Settled(AllUpdated(c, change))
    ensures LIB in Updated(c, change) && APP in Updated(c, change) && APP !in change.targets
    ensures c[APP].deps == {LIB} && Updated(c, change)[APP].deps == {}
  {
    OutcomeOfBoth(c, change);
    assert LIB[2] != APP[2];
    hide AllUpdated, Updated, Remaining, Settled, Acyclic, Listed, Queried, Fits;
    NoEdgesAreSettled(AllUpdated(c, change));
    AcyclicOf(AllUpdated(c, change));
    AcyclicIsListed(c, change);
  }

  lemma AcyclicOf(c: Content)
    requires Settled(c)
    ensures Acyclic(NamedNodes(c))
  {
  }

  lemma NoEdgesAreSettled(c: Content)
    requires forall n | n in c :: c[n].deps == {} && c[n].ruleType == LIBRARY
    ensures Settled(c)
  {
    LibraryIsRule();
    assert RanksContent(c, map n | n in c :: 0);
    NoCyclesIsSettled(c);
  }

  // ---- Targets of the query ----

  /** The batch stores every target of the query exactly when each one that its
      topological order leaves out was stored, just so, before. */
  lemma EveryTargetIsStored(c: Content, change: Change)
    ensures Updated(c, change) == AllUpdated(c, change) <==>
            forall n | n in change.targets && n !in Listed(change.targets) ::
                n in Remaining(c, change) && Remaining(c, change)[n] == NewEntry(change.targets[n])
  {
    hide Remaining, Toposort.BelowARootOf, NewEntry;
    var updated, all := Updated(c, change), AllUpdated(c, change);
    if updated == all {
      forall n | n in change.targets && n !in Listed(change.targets)
        ensures n in Remaining(c, change) && Remaining(c, change)[n] == NewEntry(change.targets[n])
      {
        assert n in all && n in updated;
      }
    }
  }

  const FIRST: Text := [97]
  const SECOND: Text := [98]

  /** Two rules that depend on each other. */
  function MutualQuery(): Change {
    Change({}, {}, {}, map[FIRST := QueryRule(FIRST, [SECOND]), SECOND := QueryRule(SECOND, [FIRST])])
  }

  /** Neither is a root of the query, so neither is stored. */
  lemma RootlessCycleIsDropped(change: Change)
    requires change == MutualQuery()
    ensures Queried(change.targets) && Fits(Remaining(map[], change), change.targets)
    ensures Updated(map[], change) == map[] && AllUpdated(map[], change).Keys == {FIRST, SECOND}
  {
    LibraryIsRule();
    assert FIRST[0] != SECOND[0];
    hide IsLeafType, PackageOf;
    var table := TableOf(change.targets);
    assert Toposort.DependsOn(table, FIRST, SECOND) && Toposort.DependsOn(table, SECOND, FIRST);
    assert forall r :: !Toposort.IsRoot(table, r);
    hide Toposort.IsRoot, Toposort.Below;
    assert Listed(change.targets) == {};
    assert Remaining(map[], change) == map[];
  }

  // ---- Generated files ----

  /** A rule of package p and a generated file of package q that it makes. */
  function WithOutput(): Content {
    map[LIB := RuleEntry({}), APP := Entry(GENERATED_FILE, None, None, {LIB})]
  }

  /** Package p is deleted, package q is not touched. */
  function PackageDeleted(): Change {
    Change({}, {}, {PACKAGE}, map[])
  }

  lemma RuleVanishes()
    ensures Vanished(PackageDeleted(), LIB) && !Vanished(PackageDeleted(), APP)
  {
    PackagesOfBoth();
    assert PACKAGE[0] == 112;
  }

  const ORPHAN: Entry := Entry(GENERATED_FILE, None, None, {})

  lemma OutputIsSettled()
    ensures Whole(WithOutput()) && NoCycles(WithOutput())
  {
    LibraryIsRule();
    assert LIB[2] != APP[2];
    hide IsLeafType;
    assert RanksContent(WithOutput(), map[LIB := 0, APP := 1]);
  }

  lemma OutputStays()
    ensures Remaining(WithOutput(), PackageDeleted()) == map[APP := ORPHAN]
  {
    var c, change := WithOutput(), PackageDeleted();
    RuleVanishes();
    assert LIB[2] != APP[2];
    hide PackageOf, Vanished;
    WithoutNothing(c);
    assert (set n | n in c && Vanished(change, n)) == {LIB};
    assert c[APP].deps - {LIB} == {};
  }

  lemma OrphanHasNoCycles()
    ensures NoCycles(map[APP := ORPHAN]) && !Whole(map[APP := ORPHAN])
  {
    LibraryIsRule();
    hide IsLeafType;
    var left := map[APP := ORPHAN];
    assert left[APP] == ORPHAN && RanksContent(left, map[APP := 0]);
  }

  lemma NothingQueried(c: Content, change: Change)
    requires change == PackageDeleted()
    ensures Queried(change.targets) && Fits(Remaining(c, change), change.targets)
    ensures Updated(c, change) == Remaining(c, change)
  {
    hide IsLeafType, Remaining;
  }

  /** A whole graph without cycles that a batch leaves with an orphan. */
  lemma DeletedRuleLeavesOrphan(c: Content, change: Change)
    requires c == WithOutput() && change == PackageDeleted()
    ensures Whole(c) && NoCycles(c) && Queried(change.targets) && Fits(Remaining(c, change), change.targets)
    ensures NoCycles(Updated(c, change)) && !Whole(Updated(c, change))
  {
    hide *;
    OutputIsSettled();
    OutputStays();
    OrphanHasNoCycles();
    NothingQueried(c, change);
  }
}
