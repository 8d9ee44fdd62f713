/** What the comparison reads of an encoded graph: one value per node and
    column, in the encoder's (package, name) order. */
module Snapshot {
  import opened Wrappers
  import opened ByteStrings
  import opened TargetDiff
  import opened Bits

  const COLON := 58

  datatype Snapshot = Snapshot(
    keys: seq<Key>,
    stride: nat,
    hashes: seq<byte>,
    emptyBits: Option<seq<byte>>,
    ruleTypeDict: seq<Text>,
    ruleTypeIDs: seq<int>,
    deps: seq<seq<int>>,
    tags: seq<seq<Text>>,
    attrs: seq<map<Text, Text>>,
    roots: seq<bool>,
    externals: seq<bool>,
    blockStarts: seq<int>,
    blockDigests: seq<int>)
  {
    function NodeCount(): nat {
      |keys|
    }

    /** The stored hash bytes of a node. */
    function Stride(i: nat): seq<byte>
      requires |hashes| == NodeCount() * stride && i < NodeCount()
    {
      MulGrows(i, i + 1, stride);
      MulGrows(i + 1, NodeCount(), stride);
      hashes[i * stride..(i + 1) * stride]
    }

    /** The node carries the empty-hash cycle sentinel. */
    predicate HashEmpty(i: nat) {
      emptyBits.Some? && Member(emptyBits.value, 8, i)
    }

    function Hash(i: nat): Text
      requires |hashes| == NodeCount() * stride && i < NodeCount()
    {
      if HashEmpty(i) then [] else HexEncode(Stride(i))
    }

    function Label(i: nat): Text
      requires i < NodeCount()
    {
      JoinLabel(keys[i])
    }

    function RuleType(i: nat): Text
      requires i < |ruleTypeIDs| && 0 <= ruleTypeIDs[i] < |ruleTypeDict|
    {
      ruleTypeDict[ruleTypeIDs[i]]
    }

    /** What every encoded graph satisfies: sorted unique keys split at their
        last colon, no empty label, consistent column lengths, dependencies
        inside the graph, a duplicate-free rule-type dictionary and a sentinel
        that is always stored over zero bytes. */
    ghost predicate WellFormed() {
      && Ascending(keys)
      && (forall i | 0 <= i < NodeCount() :: COLON !in keys[i].name && JoinLabel(keys[i]) != [])
      && stride > 0 && |hashes| == NodeCount() * stride
      && (forall i | 0 <= i < NodeCount() && HashEmpty(i) :: forall x | x in Stride(i) :: x == 0)
      && (forall i, j | 0 <= i < j < |ruleTypeDict| :: ruleTypeDict[i] != ruleTypeDict[j])
      && |ruleTypeIDs| == NodeCount() && (forall i | 0 <= i < NodeCount() :: 0 <= ruleTypeIDs[i] < |ruleTypeDict|)
      && |deps| == NodeCount() && (forall i | 0 <= i < NodeCount() :: forall d | d in deps[i] :: 0 <= d < NodeCount())
      && |tags| == |attrs| == |roots| == |externals| == NodeCount()
      && PartitionStarts(blockStarts, NodeCount()) && |blockDigests| == |blockStarts|
    }
  }

  lemma {:induction false} MulGrows(i: nat, j: nat, stride: nat)
    requires i <= j
    ensures 0 <= i * stride <= j * stride
  {
    if i < j {
      MulGrows(i, j - 1, stride);
    }
  }

  ghost predicate Ascending(keys: seq<Key>) {
    forall i, j | 0 <= i < j < |keys| :: KeyLess(keys[i], keys[j])
  }

  /** Block starts cut the node sequence into non-empty runs. */
  ghost predicate PartitionStarts(starts: seq<int>, n: nat) {
    && (starts != [] ==> starts[0] == 0)
    && (forall i, j | 0 <= i < j < |starts| :: starts[i] < starts[j])
    && (forall i | 0 <= i < |starts| :: 0 <= starts[i] < n)
  }

  /** A label without a package is its name; any other is "pkg:name". */
  function JoinLabel(k: Key): Text {
    if k.pkg == [] then k.name else k.pkg + [COLON] + k.name
  }

  function LastColon(text: Text): (r: int)
    ensures -1 <= r < |text|
    ensures r >= 0 ==> text[r] == COLON && COLON !in text[r + 1..]
    ensures r == -1 ==> COLON !in text
  {
    if text == [] then -1
    else if text[|text| - 1] == COLON then |text| - 1
    else
      assert text == text[..|text| - 1] + [text[|text| - 1]];
      LastColon(text[..|text| - 1])
  }

  /** Splits at the last colon; a label without one has an empty package. */
  function SplitLabel(text: Text): Key {
    var i := LastColon(text);
    if i < 0 then Key([], text) else Key(text[..i], text[i + 1..])
  }

  /** Splitting undoes joining on every key the encoder can produce. */
  lemma SplitJoin(k: Key)
    requires COLON !in k.name
    ensures SplitLabel(JoinLabel(k)) == k
  {
    var text := JoinLabel(k);
    if k.pkg != [] {
      var i := LastColon(text);
      assert text[|k.pkg|] == COLON;
      assert forall j | |k.pkg| < j < |text| :: text[j] == k.name[j - |k.pkg| - 1];
      assert forall j | i < j < |text| :: text[j] == text[i + 1..][j - i - 1];
      assert i == |k.pkg|;
      assert text[..|k.pkg|] == k.pkg && text[|k.pkg| + 1..] == k.name;
    }
  }

  /** Joining undoes splitting exactly when the last colon is not the first byte. */
  lemma JoinSplit(text: Text)
    ensures JoinLabel(SplitLabel(text)) == text <==> LastColon(text) != 0
  {
    var i := LastColon(text);
    if i > 0 {
      assert text == text[..i] + [COLON] + text[i + 1..];
    } else if i == 0 {
      assert |JoinLabel(SplitLabel(text))| < |text|;
    }
  }

  function HexDigit(v: int): byte
    requires 0 <= v < 16
  {
    if v < 10 then 48 + v else 87 + v
  }

  /** Lower-case hexadecimal, two digits a byte. */
  function HexEncode(s: seq<byte>): (t: Text)
    ensures |t| == 2 * |s|
  {
    if s == [] then [] else [HexDigit(s[0] / 16), HexDigit(s[0] % 16)] + HexEncode(s[1..])
  }

  lemma {:induction false} HexEncodeInjective(s: seq<byte>, t: seq<byte>)
    requires HexEncode(s) == HexEncode(t)
    ensures s == t
  {
    assert |HexEncode(s)| == 2 * |s| && |HexEncode(t)| == 2 * |t|;
    if s != [] {
      var u, v := HexEncode(s), HexEncode(t);
      assert u[0] == v[0] && u[1] == v[1];
      assert s[0] == t[0];
      assert u[2..] == HexEncode(s[1..]) && v[2..] == HexEncode(t[1..]);
      HexEncodeInjective(s[1..], t[1..]);
      assert s == [s[0]] + s[1..] && t == [t[0]] + t[1..];
    }
  }

  // ---- The label-keyed view of a snapshot ----

  /** The attributes an allowlist lets through; no allowlist lets all through. */
  function Allowed(attrs: map<Text, Text>, seedAttrs: Option<set<Text>>): map<Text, Text> {
    if seedAttrs.None? then attrs else map k | k in attrs && k in seedAttrs.value :: attrs[k]
  }

  function MaterializeTarget(r: Snapshot, node: nat, seedAttrs: Option<set<Text>>): Target
    requires r.WellFormed() && node < r.NodeCount()
  {
    Target(
      r.Label(node), r.Hash(node), r.RuleType(node),
      seq(|r.deps[node]|, j requires 0 <= j < |r.deps[node]| =>
        (assert r.deps[node][j] in r.deps[node]; r.Label(r.deps[node][j]))),
      Named(r.tags[node]), Allowed(r.attrs[node], seedAttrs), r.roots[node], r.externals[node])
  }

  /** Different nodes of one snapshot have different labels. */
  lemma LabelsAreUnique(r: Snapshot, i: nat, j: nat)
    requires r.WellFormed() && i < r.NodeCount() && j < r.NodeCount()
    requires r.Label(i) == r.Label(j)
    ensures i == j
  {
    SplitJoin(r.keys[i]);
    SplitJoin(r.keys[j]);
    KeyLessIrreflexive(r.keys[i]);
  }

  /** Across snapshots, labels agree exactly when keys do. */
  lemma LabelsMatchKeys(r: Snapshot, i: nat, q: Snapshot, j: nat)
    requires r.WellFormed() && i < r.NodeCount()
    requires q.WellFormed() && j < q.NodeCount()
    ensures r.Label(i) == q.Label(j) <==> r.keys[i] == q.keys[j]
  {
    SplitJoin(r.keys[i]);
    SplitJoin(q.keys[j]);
  }

  ghost function Labels(r: Snapshot): set<Text> {
    set i | 0 <= i < r.NodeCount() :: r.Label(i)
  }

  ghost function NodeOf(r: Snapshot, name: Text): (i: nat)
    requires name in Labels(r)
    ensures i < r.NodeCount() && r.Label(i) == name
  {
    var i :| 0 <= i < r.NodeCount() && r.Label(i) == name;
    i
  }

  /** The label-keyed graph the reference comparison runs over. */
  ghost function Semantic(r: Snapshot, seedAttrs: Option<set<Text>>): Graph
    requires r.WellFormed()
  {
    map name | name in Labels(r) :: MaterializeTarget(r, NodeOf(r, name), seedAttrs)
  }

  /** Every node appears in the graph under its own label. */
  lemma SemanticAt(r: Snapshot, seedAttrs: Option<set<Text>>, i: nat)
    requires r.WellFormed() && i < r.NodeCount()
    ensures r.Label(i) in Semantic(r, seedAttrs) && NodeOf(r, r.Label(i)) == i
    ensures Semantic(r, seedAttrs)[r.Label(i)] == MaterializeTarget(r, i, seedAttrs)
  {
    assert r.Label(i) in Labels(r);
    LabelsAreUnique(r, i, NodeOf(r, r.Label(i)));
  }

  /** The labels of the first `n` nodes, each with its own target. */
  ghost predicate HoldsFirst(r: Snapshot, seedAttrs: Option<set<Text>>, n: nat, g: Graph)
    requires r.WellFormed() && n <= r.NodeCount()
  {
    && g.Keys == (set k | 0 <= k < n :: r.Label(k))
    && forall k | 0 <= k < n :: g[r.Label(k)] == MaterializeTarget(r, k, seedAttrs)
  }

  lemma HoldsOneMore(r: Snapshot, seedAttrs: Option<set<Text>>, n: nat, g: Graph)
    requires r.WellFormed() && n < r.NodeCount() && HoldsFirst(r, seedAttrs, n, g)
    ensures HoldsFirst(r, seedAttrs, n + 1, g[r.Label(n) := MaterializeTarget(r, n, seedAttrs)])
  {
    hide r.WellFormed;
    forall k | 0 <= k < n ensures r.Label(k) != r.Label(n) {
      if r.Label(k) == r.Label(n) {
        LabelsAreUnique(r, k, n);
      }
    }
  }

  lemma HoldsAll(r: Snapshot, seedAttrs: Option<set<Text>>, g: Graph)
    requires r.WellFormed() && HoldsFirst(r, seedAttrs, r.NodeCount(), g)
    ensures g == Semantic(r, seedAttrs)
  {
    hide r.WellFormed;
    forall name | name in Labels(r) ensures name in g && g[name] == MaterializeTarget(r, NodeOf(r, name), seedAttrs) {
      assert r.Label(NodeOf(r, name)) == name;
    }
  }

  method SemanticGraph(r: Snapshot, seedAttrs: Option<set<Text>>) returns (g: Graph)
    requires r.WellFormed()
    ensures g == Semantic(r, seedAttrs)
    ensures forall n :: n in g <==> exists i: nat :: i < r.NodeCount() && r.Label(i) == n
    ensures forall i: nat | i < r.NodeCount() ::
        var t := g[r.Label(i)];
        && t.ruleType == r.ruleTypeDict[r.ruleTypeIDs[i]] && t.root == r.roots[i] && t.external == r.externals[i]
        && t.hash == (if r.HashEmpty(i) then [] else HexEncode(r.Stride(i)))
        && |t.dependencies| == |r.deps[i]|
        && (forall j | 0 <= j < |r.deps[i]| :: 0 <= r.deps[i][j] < r.NodeCount() &&
              t.dependencies[j] == r.Label(r.deps[i][j]))
        && (forall k :: k in t.attributes <==> k in r.attrs[i] && (seedAttrs.Some? ==> k in seedAttrs.value))
        && (forall k | k in t.attributes :: t.attributes[k] == r.attrs[i][k])
        && multiset(t.tags) == multiset(r.tags[i])[[] := 0]
  {
    hide r.WellFormed, HoldsFirst;
    g := map[];
    assert HoldsFirst(r, seedAttrs, 0, g) by {
      HoldsNone(r, seedAttrs);
    }
    for i := 0 to r.NodeCount()
      invariant HoldsFirst(r, seedAttrs, i, g)
    {
      HoldsOneMore(r, seedAttrs, i, g);
      var t := MaterializeTarget(r, i, seedAttrs);
      g := g[t.name := t];
    }
    HoldsAll(r, seedAttrs, g);
    forall n ensures n in g <==> exists i: nat :: i < r.NodeCount() && r.Label(i) == n {
      GraphNames(r, seedAttrs, n);
    }
    forall i: nat | i < r.NodeCount() ensures r.Label(i) in g && g[r.Label(i)] == MaterializeTarget(r, i, seedAttrs) {
      SemanticAt(r, seedAttrs, i);
    }
    TargetsAre(r, seedAttrs);
  }

  lemma GraphNames(r: Snapshot, seedAttrs: Option<set<Text>>, n: Text)
    requires r.WellFormed()
    ensures n in Semantic(r, seedAttrs) <==> exists i: nat :: i < r.NodeCount() && r.Label(i) == n
  {
    hide r.WellFormed, MaterializeTarget;
    if n in Semantic(r, seedAttrs) {
      assert r.Label(NodeOf(r, n)) == n;
    }
    if i: nat :| i < r.NodeCount() && r.Label(i) == n {
      SemanticAt(r, seedAttrs, i);
    }
  }

  /** Every field of a target, from its node's columns. */
  lemma TargetsAre(r: Snapshot, seedAttrs: Option<set<Text>>)
    requires r.WellFormed()
    ensures forall i: nat | i < r.NodeCount() ::
        var t := MaterializeTarget(r, i, seedAttrs);
        && t.ruleType == r.ruleTypeDict[r.ruleTypeIDs[i]] && t.root == r.roots[i] && t.external == r.externals[i]
        && t.hash == (if r.HashEmpty(i) then [] else HexEncode(r.Stride(i)))
        && |t.dependencies| == |r.deps[i]|
        && (forall j | 0 <= j < |r.deps[i]| :: 0 <= r.deps[i][j] < r.NodeCount() &&
              t.dependencies[j] == r.Label(r.deps[i][j]))
        && (forall k :: k in t.attributes <==> k in r.attrs[i] && (seedAttrs.Some? ==> k in seedAttrs.value))
        && (forall k | k in t.attributes :: t.attributes[k] == r.attrs[i][k])
        && multiset(t.tags) == multiset(r.tags[i])[[] := 0]
  {
    forall i: nat | i < r.NodeCount()
      ensures multiset(MaterializeTarget(r, i, seedAttrs).tags) == multiset(r.tags[i])[[] := 0]
    {
      NamedDropsEmpty(r.tags[i]);
    }
    forall i: nat, j | i < r.NodeCount() && 0 <= j < |r.deps[i]| ensures 0 <= r.deps[i][j] < r.NodeCount() {
      assert r.deps[i][j] in r.deps[i];
    }
  }

  lemma HoldsNone(r: Snapshot, seedAttrs: Option<set<Text>>)
    requires r.WellFormed()
    ensures HoldsFirst(r, seedAttrs, 0, map[])
  {
  }
}
