/** What a changed hash means: a target of the new revision is reported exactly
    when a walk along dependencies leads from it to a target that is new or
    different in itself. */
module Affected {
  import opened Wrappers
  import opened ByteStrings
  import opened RuleEncoding
  import opened Merkle
  import opened FullHasher
  import opened MerkleClosure
  import ItgState
  import TargetDiff
  import Snapshot
  import TgbDiff

  // ---- A target in itself ----

  /** The fields of a rule that its hash depends on, in any order of the lists. */
  predicate SameRule(r: BazelRule, q: BazelRule) {
    && r.name == q.name && r.ruleClass == q.ruleClass && r.environmentHash == q.environmentHash
    && multiset(r.ruleInput) == multiset(q.ruleInput) && multiset(r.ruleOutput) == multiset(q.ruleOutput)
    && multiset(r.defaultSetting) == multiset(q.defaultSetting)
    && Covers(r.attributes, q.attributes) && Covers(q.attributes, r.attributes)
  }

  /** The contents of a source file; of a package group no more than its name. */
  function LeafBytes(r: Revision, n: Text): Text
    requires n in r.s
  {
    if r.s[n].ruleType != Ascii("source file") then r.w.digest(n)
    else if r.w.source(n).Ok? then r.w.source(n).value
    else []
  }

  ghost predicate IsFile(r: Revision, n: Text) {
    n in r.s && r.s[n].ruleType == Ascii("generated file")
  }

  /** Target `n` is in both revisions and is the same but for what it depends
      on. */
  ghost predicate SameInItself(b: Revision, a: Revision, n: Text) {
    && n in b.s && n in a.s
    && if a.IsLeaf(n) then b.IsLeaf(n) && LeafBytes(b, n) == LeafBytes(a, n)
       else if IsFile(a, n) then IsFile(b, n) && b.s[n].deps == a.s[n].deps
       else b.IsRule(n) && b.s[n].rule.Some? && a.s[n].rule.Some? && SameRule(b.s[n].rule.value, a.s[n].rule.value)
  }

  /** The attributes of each rule have names of their own. */
  ghost predicate WellNamed(r: Revision) {
    forall n | n in r.s && r.s[n].rule.Some? :: DistinctlyNamed(r.s[n].rule.value.attributes)
  }

  ghost predicate SameHash(b: Revision, a: Revision, n: Text) {
    n in b.s && n in a.s && b.HashOf(n) == a.HashOf(n)
  }

  lemma HashesEqual(b: Revision, a: Revision, n: Text)
    requires SameHash(b, a, n)
    ensures b.HashOf(n) == a.HashOf(n)
  {
  }

  // ---- One target ----

  lemma LeafHash(doubled: Text -> bool, r: Revision, n: Text)
    requires r.Hashed(doubled) && r.IsLeaf(n)
    ensures r.HashOf(n) == LeafBytes(r, n)
  {
    assert r.g[n] == NodeFor(r.w, n, r.s[n]);
  }

  lemma {:induction false} SameBelow(b: Revision, a: Revision, deps: seq<Text>)
    requires forall d | d in deps :: b.HashOf(d) == a.HashOf(d)
    ensures b.Below(deps) == a.Below(deps)
    decreases |deps|
  {
    hide Revision.HashOf;
    if deps != [] {
      SameBelow(b, a, deps[..|deps| - 1]);
    }
  }

  lemma RuleOfRule(doubled: Text -> bool, r: Revision, n: Text)
    requires r.Hashed(doubled) && r.IsRule(n)
    ensures r.s[n].rule.Some? && r.s[n].deps == InputDeps(doubled, r.s[n].rule.value.ruleInput)
  {
    hide Revision.HashOf, InputDeps;
  }

  lemma SameBytes(doubled: Text -> bool, b: Revision, a: Revision, n: Text)
    requires Comparable(doubled, b, a) && b.IsRule(n) && a.IsRule(n) && b.HashOf(n) == a.HashOf(n)
    ensures RuleBytes(b.s[n].rule) == RuleBytes(a.s[n].rule)
  {
    RuleNode(doubled, b, n);
    RuleNode(doubled, a, n);
    assert b.Preimage(n) in b.Preimages() && a.Preimage(n) in a.Preimages();
    assert b.Encoding(n) in b.Preimages() && a.Encoding(n) in a.Preimages();
    hide OwnHash, Pictures, Ranked, Hash, InputDeps;
    var x, y := b.Preimage(n), a.Preimage(n);
    assert x[..HASH_SIZE] == OwnHash(b.w, b.s[n]) && y[..HASH_SIZE] == OwnHash(a.w, a.s[n]);
  }

  lemma SameDigest(doubled: Text -> bool, b: Revision, a: Revision)
    requires Comparable(doubled, b, a)
    ensures b.w.digest == a.w.digest
  {
  }

  /** A rule of both revisions keeps its hash exactly when it is the same rule
      and its dependencies keep theirs. */
  lemma RuleTells(doubled: Text -> bool, b: Revision, a: Revision, n: Text)
    requires Comparable(doubled, b, a) && WellNamed(b) && WellNamed(a) && b.IsRule(n) && a.IsRule(n)
    ensures b.s[n].rule.Some? && a.s[n].rule.Some?
    ensures b.HashOf(n) == a.HashOf(n) <==>
            && SameRule(b.s[n].rule.value, a.s[n].rule.value)
            && forall d | d in a.s[n].deps :: SameHash(b, a, d)
  {
    Sides(doubled, b, a);
    RuleOfRule(doubled, b, n);
    RuleOfRule(doubled, a, n);
    RuleNode(doubled, b, n);
    RuleNode(doubled, a, n);
    SameDigest(doubled, b, a);
    hide Comparable, Revision.Hashed, Revision.HashOf, Revision.Below, OwnHash, InputDeps, RuleBytes, Covers;
    var r, q := b.s[n].rule.value, a.s[n].rule.value;
    RuleBytesTell(r, q);
    if b.HashOf(n) == a.HashOf(n) {
      SameBytes(doubled, b, a, n);
      forall d | d in a.s[n].deps ensures SameHash(b, a, d) {
        EqualHashesHaveEqualDeps(doubled, b, a, n, d);
      }
    }
    if SameRule(r, q) && forall d | d in a.s[n].deps :: SameHash(b, a, d) {
      InputsPinDeps(doubled, r.ruleInput, q.ruleInput);
      SameBelow(b, a, a.s[n].deps);
    }
  }

  /** A generated file has its rule's hash. */
  lemma FileHash(doubled: Text -> bool, r: Revision, n: Text)
    requires r.Hashed(doubled) && IsFile(r, n)
    ensures |r.s[n].deps| == 1 && r.IsRule(r.s[n].deps[0]) && r.HashOf(n) == r.HashOf(r.s[n].deps[0])
  {
    AliasNode(doubled, r, n);
    hide Revision.Hashed, Revision.HashOf, IsRuleType;
  }

  lemma RuleNamesPinned(doubled: Text -> bool, b: Revision, a: Revision, p: Text, q: Text)
    requires Comparable(doubled, b, a) && b.IsRule(p) && a.IsRule(q) && b.HashOf(p) == a.HashOf(q)
    ensures p == q && SameHash(b, a, p)
  {
    EqualRulesAgree(doubled, b, a, p, q);
    hide Comparable, Revision.HashOf;
  }

  lemma FileTells(doubled: Text -> bool, b: Revision, a: Revision, n: Text)
    requires Comparable(doubled, b, a) && IsFile(b, n) && IsFile(a, n)
    ensures b.HashOf(n) == a.HashOf(n) <==>
            b.s[n].deps == a.s[n].deps && forall d | d in a.s[n].deps :: SameHash(b, a, d)
  {
    hide Comparable, Revision.Hashed, Revision.HashOf, Revision.IsRule, SameHash;
    Sides(doubled, b, a);
    FileHash(doubled, b, n);
    FileHash(doubled, a, n);
    var p, q := b.s[n].deps[0], a.s[n].deps[0];
    assert b.s[n].deps == [p] && a.s[n].deps == [q];
    if b.HashOf(n) == a.HashOf(n) {
      RuleNamesPinned(doubled, b, a, p, q);
    } else if p == q && SameHash(b, a, q) {
      HashesEqual(b, a, q);
    }
  }

  lemma KindsDiffer(doubled: Text -> bool, b: Revision, a: Revision, n: Text)
    requires Comparable(doubled, b, a) && SameHash(b, a, n)
    ensures (b.IsRule(n) <==> a.IsRule(n)) && (b.IsLeaf(n) <==> a.IsLeaf(n)) && (IsFile(b, n) <==> IsFile(a, n))
  {
    Sides(doubled, b, a);
    RulesStayRules(doubled, b, a, n);
    LeavesApart(doubled, b, a);
    if IsFile(b, n) {
      AliasNode(doubled, b, n);
    }
    hide Comparable, Revision.Hashed, Revision.HashOf;
  }

  /** A target keeps its hash exactly when it is the same in itself and all its
      dependencies keep theirs. */
  lemma HashTells(doubled: Text -> bool, b: Revision, a: Revision, n: Text)
    requires Comparable(doubled, b, a) && WellNamed(b) && WellNamed(a) && n in a.s
    ensures SameHash(b, a, n) <==> SameInItself(b, a, n) && forall d | d in a.s[n].deps :: SameHash(b, a, d)
  {
    hide Comparable, Revision.Hashed, Revision.HashOf, WellNamed, SameRule, LeafBytes;
    Sides(doubled, b, a);
    if SameHash(b, a, n) {
      KindsDiffer(doubled, b, a, n);
    }
    if a.IsLeaf(n) && b.IsLeaf(n) {
      LeafHash(doubled, b, n);
      LeafHash(doubled, a, n);
      LeafHasNoDeps(doubled, a, n);
    } else if IsFile(a, n) && IsFile(b, n) {
      FileTells(doubled, b, a, n);
    } else if a.IsRule(n) && b.IsRule(n) {
      RuleTells(doubled, b, a, n);
    }
  }

  // ---- Everything below it ----

  /** `path` leads along dependencies of the revision. */
  ghost predicate Leads(r: Revision, path: seq<Text>) {
    && path != [] && path[0] in r.s
    && forall i | 0 <= i < |path| - 1 :: path[i] in r.s && path[i + 1] in r.s[path[i]].deps
  }

  /** Some walk from `n` ends at a target that is new or different in itself. */
  ghost predicate IsAffected(b: Revision, a: Revision, n: Text) {
    exists path :: Leads(a, path) && path[0] == n && !SameInItself(b, a, path[|path| - 1])
  }

  lemma DepsThere(doubled: Text -> bool, r: Revision, n: Text, d: Text)
    requires r.Hashed(doubled) && n in r.s && d in r.s[n].deps
    ensures d in r.s && d in r.rank && n in r.rank && r.rank[d] < r.rank[n]
  {
    hide Revision.HashOf, RuleBytes, InputDeps;
    assert r.g[n] == NodeFor(r.w, n, r.s[n]);
    assert d in DepsOf(r.g[n]);
  }

  lemma {:induction false} WalkKeepsHash(doubled: Text -> bool, b: Revision, a: Revision, path: seq<Text>)
    requires Comparable(doubled, b, a) && WellNamed(b) && WellNamed(a) && Leads(a, path) && SameHash(b, a, path[0])
    ensures SameInItself(b, a, path[|path| - 1])
    decreases |path|
  {
    hide Comparable, WellNamed, SameInItself, Revision.HashOf;
    HashTells(doubled, b, a, path[0]);
    if |path| > 1 {
      assert path[1] in a.s[path[0]].deps && SameHash(b, a, path[1]);
      var rest := path[1..];
      assert Leads(a, rest);
      WalkKeepsHash(doubled, b, a, rest);
    }
  }

  lemma AffectedFrom(b: Revision, a: Revision, n: Text, d: Text)
    requires n in a.s && d in a.s[n].deps && IsAffected(b, a, d)
    ensures IsAffected(b, a, n)
  {
    hide SameInItself;
    var path :| Leads(a, path) && path[0] == d && !SameInItself(b, a, path[|path| - 1]);
    var longer := [n] + path;
    assert Leads(a, longer);
  }

  lemma AffectedInItself(b: Revision, a: Revision, n: Text)
    requires n in a.s && !SameInItself(b, a, n)
    ensures IsAffected(b, a, n)
  {
    hide SameInItself;
    assert Leads(a, [n]);
  }

  lemma {:induction false} UnaffectedKeepsHash(doubled: Text -> bool, b: Revision, a: Revision, n: Text)
    requires Comparable(doubled, b, a) && WellNamed(b) && WellNamed(a) && n in a.s && !IsAffected(b, a, n)
    ensures SameHash(b, a, n)
    decreases if n in a.rank then a.rank[n] + 1 else 0
  {
    hide Comparable, WellNamed, SameInItself, SameHash, Revision.Hashed, IsAffected, Leads;
    Sides(doubled, b, a);
    if !SameInItself(b, a, n) {
      AffectedInItself(b, a, n);
      assert false;
    }
    forall d | d in a.s[n].deps ensures SameHash(b, a, d) {
      DepsThere(doubled, a, n, d);
      if IsAffected(b, a, d) {
        AffectedFrom(b, a, n, d);
        assert false;
      }
      UnaffectedKeepsHash(doubled, b, a, d);
    }
    HashTells(doubled, b, a, n);
  }

  /** A target changes its hash, or is new, exactly when it is affected. */
  lemma AffectedExactly(doubled: Text -> bool, b: Revision, a: Revision, n: Text)
    requires Comparable(doubled, b, a) && WellNamed(b) && WellNamed(a) && n in a.s
    ensures n !in b.s || b.HashOf(n) != a.HashOf(n) <==> IsAffected(b, a, n)
  {
    hide Comparable, WellNamed, SameInItself, Revision.HashOf;
    if IsAffected(b, a, n) && SameHash(b, a, n) {
      var path :| Leads(a, path) && path[0] == n && !SameInItself(b, a, path[|path| - 1]);
      WalkKeepsHash(doubled, b, a, path);
    }
    if !IsAffected(b, a, n) {
      UnaffectedKeepsHash(doubled, b, a, n);
    }
  }

  // ---- The report ----

  lemma SameReported(b: Revision, a: Revision, gb: TargetDiff.Graph, ga: TargetDiff.Graph, n: Text)
    requires Reports(gb, b) && Reports(ga, a)
    ensures (n in ga <==> n in a.s) && (n in gb <==> n in b.s)
    ensures n in TargetDiff.DirtyNames(gb, ga) <==> n in a.s && (n !in b.s || b.HashOf(n) != a.HashOf(n))
  {
    hide Revision.HashOf;
    if n in a.s && n in b.s && Snapshot.HexEncode(b.HashOf(n)) == Snapshot.HexEncode(a.HashOf(n)) {
      Snapshot.HexEncodeInjective(b.HashOf(n), a.HashOf(n));
    }
  }

  /** The report names a target of the new revision exactly when it is
      affected, and any other target exactly when it is gone. */
  lemma ReportedExactly(doubled: Text -> bool, b: Revision, a: Revision, gb: TargetDiff.Graph, ga: TargetDiff.Graph,
                        maxDistance: int, entries: seq<TgbDiff.Entry>, n: Text)
    requires Comparable(doubled, b, a) && WellNamed(b) && WellNamed(a) && Reports(gb, b) && Reports(ga, a)
    requires TgbDiff.ReportHolds(gb, ga, maxDistance, entries)
    ensures (exists e :: e in entries && e.name == n) <==> if n in a.s then IsAffected(b, a, n) else n in b.s
  {
    hide Comparable, WellNamed, IsAffected, Revision.HashOf, Reports, TargetDiff.DirtyNames,
      TgbDiff.EntryHolds, TgbDiff.StrictlyAscending;
    SameReported(b, a, gb, ga, n);
    assert (exists e :: e in entries && e.name == n) <==> n in TargetDiff.DirtyNames(gb, ga) + (gb.Keys - ga.Keys);
    if n in a.s {
      AffectedExactly(doubled, b, a, n);
    }
  }

  /** The report's names are the affected targets and the targets that are gone. */
  ghost predicate NamesAffected(b: Revision, a: Revision, entries: seq<TgbDiff.Entry>) {
    forall n :: (exists e :: e in entries && e.name == n) <==> if n in a.s then IsAffected(b, a, n) else n in b.s
  }

  lemma AllReportedExactly(doubled: Text -> bool, b: Revision, a: Revision, gb: TargetDiff.Graph,
                           ga: TargetDiff.Graph, maxDistance: int, entries: seq<TgbDiff.Entry>)
    requires Comparable(doubled, b, a) && Reports(gb, b) && Reports(ga, a)
    requires TgbDiff.ReportHolds(gb, ga, maxDistance, entries)
    ensures WellNamed(b) && WellNamed(a) ==> NamesAffected(b, a, entries)
  {
    hide Comparable, WellNamed, IsAffected, Reports, TgbDiff.ReportHolds;
    if WellNamed(b) && WellNamed(a) {
      forall n
        ensures (exists e :: e in entries && e.name == n) <==> if n in a.s then IsAffected(b, a, n) else n in b.s
      {
        ReportedExactly(doubled, b, a, gb, ga, maxDistance, entries, n);
      }
    }
  }
}
