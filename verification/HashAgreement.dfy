/** The full hasher and the incremental graph hash the same Merkle graph. */
module HashAgreement {
  import opened Wrappers
  import opened ByteStrings
  import opened Sorting
  import opened Merkle
  import opened NameOrder
  import ItgState
  import opened ItgContent
  import FH = FullHasher

  /** The entry says of a target what the full hasher reads of it. */
  ghost predicate Describes(w: FH.World, n: Text, t: FH.Info, e: Entry) {
    && e.ruleType == t.ruleType && e.deps == (set d | d in t.deps)
    && (t.ruleType == ItgState.SOURCE_FILE ==> w.source(n).Ok? && e.hash == Some(w.source(n).value))
    && (t.ruleType == ItgState.PACKAGE_GROUP ==> e.hash == Some(w.digest(n)))
    && (!ItgState.IsLeafType(t.ruleType) && t.ruleType != ItgState.GENERATED_FILE ==>
          e.own == Some(FH.OwnHash(w, t)))
    && (t.ruleType == ItgState.GENERATED_FILE ==> |t.deps| == 1)
  }

  ghost predicate Ascending(names: seq<Text>) {
    forall i, j | 0 <= i < j < |names| :: Less(names[i], names[j])
  }

  lemma AscendingIsOrdered(names: seq<Text>)
    requires Ascending(names)
    ensures Ordered(NameItself, set d | d in names) == names
  {
    OrderedIs(NameItself, (set d | d in names), names);
  }

  lemma OrderedIsAscending(items: set<Text>)
    ensures Ascending(Ordered(NameItself, items))
  {
    OrderExists(NameItself, items);
  }

  lemma SortedIsAscending(names: seq<Text>)
    requires Sorted((a, b) => LessEq(a, b), names)
    ensures Ascending(names) <==> NoDuplicates(names)
  {
    var leq := (a: Text, b: Text) => LessEq(a, b);
    if Ascending(names) {
      forall i, j | 0 <= i < j < |names| ensures names[i] != names[j] {
        LessIrreflexive(names[i]);
      }
    }
    if NoDuplicates(names) {
      forall i, j | 0 <= i < j < |names| ensures Less(names[i], names[j]) {
        assert leq(names[i], names[j]);
      }
    }
  }

  /** Both read the same node exactly when the rule lists no input twice: the
      full hasher hashes a repeated input again, the graph keeps a set. */
  lemma NodesAgree(w: FH.World, n: Text, t: FH.Info, e: Entry)
    requires Describes(w, n, t, e) && Sorted((a, b) => LessEq(a, b), t.deps)
    ensures FH.NodeFor(w, n, t) == NamedNode(e) <==> ItgState.IsLeafType(t.ruleType) || NoDuplicates(t.deps)
  {
    SortedIsAscending(t.deps);
    if ItgState.IsLeafType(t.ruleType) {
    } else if t.ruleType == ItgState.GENERATED_FILE {
      assert e.deps == {t.deps[0]} by {
        assert t.deps[0] in t.deps;
      }
      assert SingleName(e.deps) == t.deps[0];
    } else {
      OrderedIsAscending(e.deps);
      if Ascending(t.deps) {
        AscendingIsOrdered(t.deps);
      }
    }
  }

  /** A rule that lists one input twice is two nodes: the full hasher reads the
      input two times, the incremental graph once. */
  lemma RepeatedInputIsReadTwice(w: FH.World)
    ensures var n, a, library := [97], [98], Ascii("go_library");
      var t := FH.Info(library, None, [1], [a, a], None, false);
      var e := Entry(library, None, Some([1]), {a});
      && Describes(w, n, t, e) && Sorted((x, y) => LessEq(x, y), t.deps)
      && FH.NodeFor(w, n, t) == Rule([1], [a, a]) && NamedNode(e) == Rule([1], [a])
      && FH.NodeFor(w, n, t) != NamedNode(e)
  {
    var a: Text, library := [98], Ascii("go_library");
    assert |library| == 10 && |ItgState.SOURCE_FILE| == 11 && |ItgState.PACKAGE_GROUP| == 13 &&
           |ItgState.GENERATED_FILE| == 14;
    assert (set d | d in [a, a]) == {a} == (set d | d in [a]);
    AscendingIsOrdered([a]);
  }

  /** A target map and the content of an incremental graph that describe the
      same acyclic targets have the same hashes, so updating the one in place
      equals hashing the other from scratch. */
  lemma FullAndIncrementalAgree(w: FH.World, g: map<Text, Node<Text>>, s: FH.Infos, c: Content, n: Text)
    requires FH.Pictures(w, g, s) && g.Keys == s.Keys == c.Keys && n in s
    requires forall m | m in s ::
        Describes(w, m, s[m], c[m]) && Sorted((a, b) => LessEq(a, b), s[m].deps) && NoDuplicates(s[m].deps)
    requires Acyclic(g)
    ensures g == NamedNodes(c) && FullHash(w.digest, g, n) == FullHash(w.digest, NamedNodes(c), n)
  {
    hide Describes, NamedNode, FH.NodeFor, Acyclic, Closed;
    forall m | m in g ensures g[m] == NamedNode(c[m]) {
      NodesAgree(w, m, s[m], c[m]);
    }
    assert g == NamedNodes(c);
  }
}
