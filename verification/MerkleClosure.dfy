/** Why hashing makes change propagate: under a digest without collisions on the
    inputs at hand, a target that reaches a new or changed target is changed. */
module MerkleClosure {
  import opened Wrappers
  import opened ByteStrings
  import opened TextSort
  import opened Varint
  import opened Framing
  import opened RuleEncoding
  import opened Merkle
  import opened FullHasher
  import ItgState
  import TargetDiff
  import Refinement
  import Snapshot
  import TgbDiff

  const HASH_SIZE := 20

  // ---- What a rule's own hash pins down ----

  /** Equal encodings have equal names and inputs, unique attribute names or
      not. */
  lemma EncodingPinsInputs(r: BazelRule, q: BazelRule)
    requires RuleEncoding.RuleBytes(Some(r)) == RuleEncoding.RuleBytes(Some(q))
    ensures r.name == q.name && multiset(r.ruleInput) == multiset(q.ruleInput)
  {
    hide Message, SortedStrings, ListField, SortTexts;
    var f, g := Field(Ascii("rule"), MESSAGE, Some(EncodeRule(r))), Field(Ascii("rule"), MESSAGE, Some(EncodeRule(q)));
    assert EncodeField(f) + [] == EncodeField(g) + [];
    FieldPrefixFree(f, g, [], []);
    MessageInjective(Ascii("Rule"), RuleFields(r), Ascii("Rule"), RuleFields(q));
    assert RuleFields(r)[0] == RuleFields(q)[0] && RuleFields(r)[3] == RuleFields(q)[3];
    SortedStringsInjective("rule_input", r.ruleInput, q.ruleInput);
  }

  /** The inputs that are real labels. */
  function Labels(doubled: Text -> bool, inputs: seq<Text>): (labels: seq<Text>)
    ensures forall d :: multiset(labels)[d] == if doubled(d) then 0 else multiset(inputs)[d]
  {
    if inputs == [] then []
    else
      assert inputs == [inputs[0]] + inputs[1..];
      (if doubled(inputs[0]) then [] else [inputs[0]]) + Labels(doubled, inputs[1..])
  }

  /** A rule target's dependencies: its inputs that are labels, sorted. */
  function InputDeps(doubled: Text -> bool, inputs: seq<Text>): seq<Text> {
    SortTexts(Labels(doubled, inputs))
  }

  lemma InputsPinDeps(doubled: Text -> bool, xs: seq<Text>, ys: seq<Text>)
    requires multiset(xs) == multiset(ys)
    ensures InputDeps(doubled, xs) == InputDeps(doubled, ys)
  {
    assert multiset(Labels(doubled, xs)) == multiset(Labels(doubled, ys));
    SortForgetsOrder(Labels(doubled, xs), Labels(doubled, ys));
  }

  // ---- One revision, hashed ----

  predicate IsRuleType(ruleType: Text) {
    !ItgState.IsLeafType(ruleType) && ruleType != ItgState.GENERATED_FILE
  }

  /** A target map as the query produces it: rules carry their own name, their
      own hash and the dependencies of their inputs; generated files name a
      rule; nothing is missing. */
  ghost predicate FromBazel(w: World, doubled: Text -> bool, s: Infos) {
    && (forall n | n in s && IsRuleType(s[n].ruleType) ::
          && s[n].rule.Some? && s[n].rule.value.name == Some(n)
          && OwnHash(w, s[n]) == w.digest(RuleEncoding.RuleBytes(s[n].rule))
          && s[n].deps == InputDeps(doubled, s[n].rule.value.ruleInput))
    && (forall n | n in s && s[n].ruleType == ItgState.GENERATED_FILE ::
          |s[n].deps| == 1 && s[n].deps[0] in s && IsRuleType(s[s[n].deps[0]].ruleType))
    && (forall n | n in s && ItgState.IsLeafType(s[n].ruleType) :: s[n].deps == [])
  }

  /** A revision: its targets and their Merkle graph. */
  datatype Revision = Revision(w: World, s: Infos, g: map<Text, Node<Text>>, rank: map<Text, nat>)
  {
    ghost predicate Hashed(doubled: Text -> bool) {
      && FromBazel(w, doubled, s) && Pictures(w, g, s) && g.Keys == s.Keys && Ranked(g, rank)
      && (forall n | n in g :: |HashOf(n)| == HASH_SIZE)
      && (forall n | n in s && IsRuleType(s[n].ruleType) :: |OwnHash(w, s[n])| == HASH_SIZE)
    }

    ghost function HashOf(n: Text): Text {
      if Ranked(g, rank) && n in g then Hash(w.digest, g, rank, n) else []
    }

    /** The hashes of `deps`, end to end. */
    ghost function Below(deps: seq<Text>): Text {
      if deps == [] then [] else Below(deps[..|deps| - 1]) + HashOf(deps[|deps| - 1])
    }

    predicate IsRule(n: Text) {
      n in s && IsRuleType(s[n].ruleType)
    }

    predicate IsLeaf(n: Text) {
      n in s && ItgState.IsLeafType(s[n].ruleType)
    }

    /** What rule `n` feeds the digest: its encoding, then its own hash with its
        dependencies' hashes. */
    ghost function Encoding(n: Text): Text
      requires IsRule(n)
    {
      RuleEncoding.RuleBytes(s[n].rule)
    }

    ghost function Preimage(n: Text): Text
      requires IsRule(n)
    {
      OwnHash(w, s[n]) + Below(s[n].deps)
    }

    ghost function Preimages(): set<Text> {
      (set n | n in s && IsRule(n) :: Encoding(n)) + (set n | n in s && IsRule(n) :: Preimage(n))
    }
  }

  ghost predicate NoCollisions(h: Digest, inputs: set<Text>) {
    forall x, y | x in inputs && y in inputs && h(x) == h(y) :: x == y
  }

  /** Two revisions hashed with one digest that has no collisions on what they
      feed it, and whose leaf hashes are no rule hashes. */
  ghost predicate Comparable(doubled: Text -> bool, b: Revision, a: Revision) {
    && b.Hashed(doubled) && a.Hashed(doubled) && b.w.digest == a.w.digest
    && NoCollisions(a.w.digest, b.Preimages() + a.Preimages())
    && (forall n, m | b.IsLeaf(n) && a.IsRule(m) :: b.HashOf(n) != a.HashOf(m))
    && (forall n, m | b.IsRule(n) && a.IsLeaf(m) :: b.HashOf(n) != a.HashOf(m))
  }

  lemma {:induction false} BelowIsHashAll(r: Revision, deps: seq<Text>, bound: nat)
    requires Ranked(r.g, r.rank) && forall d | d in deps :: d in r.g && r.rank[d] < bound
    ensures r.Below(deps) == HashAll(r.w.digest, r.g, r.rank, deps, bound)
    decreases |deps|
  {
    if deps != [] {
      BelowIsHashAll(r, deps[..|deps| - 1], bound);
    }
  }

  /** The node of each kind of target. */
  lemma RuleNode(doubled: Text -> bool, r: Revision, n: Text)
    requires r.Hashed(doubled) && r.IsRule(n)
    ensures r.g[n] == Rule(OwnHash(r.w, r.s[n]), r.s[n].deps)
    ensures forall d | d in r.s[n].deps :: d in r.g
    ensures r.HashOf(n) == r.w.digest(r.Preimage(n))
    ensures OwnHash(r.w, r.s[n]) == r.w.digest(r.Encoding(n)) && |OwnHash(r.w, r.s[n])| == HASH_SIZE
  {
    assert r.g[n] == NodeFor(r.w, n, r.s[n]);
    assert forall d | d in r.s[n].deps :: d in DepsOf(r.g[n]);
    BelowIsHashAll(r, r.s[n].deps, r.rank[n]);
    hide NodeFor, OwnHash;
  }

  lemma AliasNode(doubled: Text -> bool, r: Revision, n: Text)
    requires r.Hashed(doubled) && n in r.s && r.s[n].ruleType == ItgState.GENERATED_FILE
    ensures |r.s[n].deps| == 1 && r.IsRule(r.s[n].deps[0]) && r.s[n].deps[0] != n
    ensures r.HashOf(n) == r.HashOf(r.s[n].deps[0])
  {
    assert r.g[n] == NodeFor(r.w, n, r.s[n]) == Alias(r.s[n].deps[0]);
    assert r.s[n].deps[0] in DepsOf(r.g[n]);
  }

  /** Rules with one hash are one rule, with one list of dependencies. */
  lemma EqualRulesAgree(doubled: Text -> bool, b: Revision, a: Revision, n: Text, m: Text)
    requires Comparable(doubled, b, a) && b.IsRule(n) && a.IsRule(m) && b.HashOf(n) == a.HashOf(m)
    ensures n == m && b.s[n].deps == a.s[m].deps && b.Below(b.s[n].deps) == a.Below(a.s[m].deps)
  {
    RuleNode(doubled, b, n);
    RuleNode(doubled, a, m);
    assert b.Preimage(n) in b.Preimages() && a.Preimage(m) in a.Preimages();
    assert b.Encoding(n) in b.Preimages() && a.Encoding(m) in a.Preimages();
    hide OwnHash, Pictures, Ranked, Hash, InputDeps;
    var x, y := b.Preimage(n), a.Preimage(m);
    assert x == y;
    assert x[..HASH_SIZE] == OwnHash(b.w, b.s[n]) && y[..HASH_SIZE] == OwnHash(a.w, a.s[m]);
    assert x[HASH_SIZE..] == b.Below(b.s[n].deps) && y[HASH_SIZE..] == a.Below(a.s[m].deps);
    assert b.Encoding(n) == a.Encoding(m);
    EncodingPinsInputs(b.s[n].rule.value, a.s[m].rule.value);
    InputsPinDeps(doubled, b.s[n].rule.value.ruleInput, a.s[m].rule.value.ruleInput);
  }

  lemma {:induction false} BelowSize(doubled: Text -> bool, r: Revision, deps: seq<Text>)
    requires r.Hashed(doubled) && forall d | d in deps :: d in r.g
    ensures |r.Below(deps)| == HASH_SIZE * |deps|
  {
    if deps != [] {
      BelowSize(doubled, r, deps[..|deps| - 1]);
    }
  }

  /** Fixed-size hashes end to end pin down each of them. */
  lemma {:induction false} BelowPinsEach(doubled: Text -> bool, b: Revision, a: Revision, deps: seq<Text>, d: Text)
    requires b.Hashed(doubled) && a.Hashed(doubled) && (forall x | x in deps :: x in b.g && x in a.g)
    requires b.Below(deps) == a.Below(deps) && d in deps
    ensures b.HashOf(d) == a.HashOf(d)
  {
    hide Revision.Hashed, Revision.HashOf;
    var front, last := deps[..|deps| - 1], deps[|deps| - 1];
    assert last in deps;
    BelowSize(doubled, b, front);
    BelowSize(doubled, a, front);
    var x, y := b.Below(deps), a.Below(deps);
    assert x[..HASH_SIZE * |front|] == b.Below(front) && y[..HASH_SIZE * |front|] == a.Below(front);
    assert x[HASH_SIZE * |front|..] == b.HashOf(last) && y[HASH_SIZE * |front|..] == a.HashOf(last);
    if d != last {
      assert deps == front + [last];
      BelowPinsEach(doubled, b, a, front, d);
    }
  }

  /** A generated file and a rule never share a hash with a rule of another
      name. */
  lemma RulesStayRules(doubled: Text -> bool, b: Revision, a: Revision, n: Text)
    requires Comparable(doubled, b, a) && n in b.s && n in a.s && b.HashOf(n) == a.HashOf(n)
    ensures b.IsRule(n) <==> a.IsRule(n)
    ensures b.IsLeaf(n) ==> a.IsLeaf(n)
  {
    Sides(doubled, b, a);
    if b.s[n].ruleType == ItgState.GENERATED_FILE {
      AliasNode(doubled, b, n);
    }
    if a.s[n].ruleType == ItgState.GENERATED_FILE {
      AliasNode(doubled, a, n);
    }
    LeavesApart(doubled, b, a);
    hide Comparable, Revision.Hashed, Revision.HashOf;
    if b.IsRule(n) && a.s[n].ruleType == ItgState.GENERATED_FILE {
      EqualRulesAgree(doubled, b, a, n, a.s[n].deps[0]);
    } else if a.IsRule(n) && b.s[n].ruleType == ItgState.GENERATED_FILE {
      EqualRulesAgree(doubled, b, a, b.s[n].deps[0], n);
    }
  }

  lemma Sides(doubled: Text -> bool, b: Revision, a: Revision)
    requires Comparable(doubled, b, a)
    ensures b.Hashed(doubled) && a.Hashed(doubled)
  {
  }

  lemma LeavesApart(doubled: Text -> bool, b: Revision, a: Revision)
    requires Comparable(doubled, b, a)
    ensures forall n, m | b.IsLeaf(n) && a.IsRule(m) :: b.HashOf(n) != a.HashOf(m)
    ensures forall n, m | b.IsRule(n) && a.IsLeaf(m) :: b.HashOf(n) != a.HashOf(m)
  {
    hide Revision.HashOf;
  }

  lemma LeafHasNoDeps(doubled: Text -> bool, r: Revision, n: Text)
    requires r.Hashed(doubled) && r.IsLeaf(n)
    ensures r.s[n].deps == []
  {
    hide Revision.HashOf;
  }

  lemma KeysMatch(doubled: Text -> bool, r: Revision)
    requires r.Hashed(doubled)
    ensures r.g.Keys == r.s.Keys
  {
    hide Revision.HashOf;
  }

  /** A target with one hash in two revisions has the same dependencies with the
      same hashes. */
  lemma EqualHashesHaveEqualDeps(doubled: Text -> bool, b: Revision, a: Revision, n: Text, d: Text)
    requires Comparable(doubled, b, a) && n in b.s && n in a.s && b.HashOf(n) == a.HashOf(n) && d in a.s[n].deps
    ensures d in b.s && d in a.s && b.HashOf(d) == a.HashOf(d)
  {
    hide Comparable, Revision.Hashed, Revision.HashOf, Revision.Below, Revision.Preimage, Revision.Encoding, OwnHash;
    Sides(doubled, b, a);
    KeysMatch(doubled, b);
    KeysMatch(doubled, a);
    RulesStayRules(doubled, b, a, n);
    if a.IsRule(n) {
      RuleNode(doubled, a, n);
      RuleNode(doubled, b, n);
      EqualRulesAgree(doubled, b, a, n, n);
      BelowPinsEach(doubled, b, a, a.s[n].deps, d);
    } else if a.IsLeaf(n) {
      LeafHasNoDeps(doubled, a, n);
    } else {
      AliasNode(doubled, a, n);
      AliasNode(doubled, b, n);
      EqualRulesAgree(doubled, b, a, b.s[n].deps[0], a.s[n].deps[0]);
    }
  }

  // ---- The comparison's hypothesis ----

  /** `t` is the graph the comparison sees of a revision: full hashes in
      hexadecimal, and the dependencies by name. */
  ghost predicate Reports(t: TargetDiff.Graph, r: Revision) {
    && t.Keys == r.s.Keys
    && (forall n | n in t :: t[n].hash == Snapshot.HexEncode(r.HashOf(n)))
    && (forall n, d | n in t :: d in t[n].dependencies <==> d in r.s[n].deps)
  }

  /** Every target that depends on a new or changed one is itself new or changed,
      so the distances of both comparisons are equal. */
  lemma RevisionsAreMerkleClosed(doubled: Text -> bool, b: Revision, a: Revision, gb: TargetDiff.Graph,
                                 ga: TargetDiff.Graph)
    requires Comparable(doubled, b, a) && Reports(gb, b) && Reports(ga, a)
    ensures Refinement.MerkleClosed(gb, ga)
  {
    hide Comparable, Revision.HashOf;
    forall n, d | n in ga && d in ga[n].dependencies && TargetDiff.IsDirty(gb, ga, d)
      ensures TargetDiff.IsDirty(gb, ga, n)
    {
      if !TargetDiff.IsDirty(gb, ga, n) {
        Snapshot.HexEncodeInjective(b.HashOf(n), a.HashOf(n));
        EqualHashesHaveEqualDeps(doubled, b, a, n, d);
        assert false;
      }
    }
  }

  /** Over two hashed revisions the fast report is the reference's, distances
      included. */
  lemma HashedComparisonsAgree(doubled: Text -> bool, b: Revision, a: Revision, gb: TargetDiff.Graph,
                               ga: TargetDiff.Graph, maxDistance: int,
                               entries: seq<TgbDiff.Entry>, changed: map<Text, TargetDiff.ChangedTarget>)
    requires Comparable(doubled, b, a) && Reports(gb, b) && Reports(ga, a) && Refinement.Closed(ga)
    requires TgbDiff.ReportHolds(gb, ga, maxDistance, entries)
    requires Refinement.ReferenceHolds(gb, ga, maxDistance, changed)
    ensures forall e | e in entries ::
        e.name in changed && e.changeType == changed[e.name].changeType && e.distance == changed[e.name].distance
    ensures forall n | n in changed :: exists e :: e in entries && e.name == n
  {
    hide Comparable, Reports, Refinement.Closed, Refinement.MerkleClosed, Refinement.ReferenceHolds,
      TgbDiff.ReportHolds;
    RevisionsAreMerkleClosed(doubled, b, a, gb, ga);
    Refinement.FastRefinesReference(gb, ga, maxDistance, entries, changed);
  }
}
