/** The full Merkle hash of an acyclic target graph, by recursion over
    dependencies. The digest is a parameter. */
module Merkle {
  import opened ByteStrings

  type Digest = Text -> Text

  /** A source file or package group has a hash of its own, a generated file
      takes its generating rule's, and a rule hashes its body and dependencies. */
  datatype Node<V> = Leaf(hash: Text) | Alias(dep: V) | Rule(own: Text, deps: seq<V>)

  function DepsOf<V>(node: Node<V>): seq<V> {
    match node
    case Leaf(_) => []
    case Alias(dep) => [dep]
    case Rule(_, deps) => deps
  }

  ghost predicate Closed<V(!new)>(g: map<V, Node<V>>) {
    forall n, d | n in g && d in DepsOf(g[n]) :: d in g
  }

  /** `rank` proves `g` closed and acyclic: dependencies rank lower. */
  ghost predicate Ranked<V(!new)>(g: map<V, Node<V>>, rank: map<V, nat>) {
    && g.Keys <= rank.Keys
    && forall n, d | n in g && d in DepsOf(g[n]) :: d in g && rank[d] < rank[n]
  }

  ghost predicate Acyclic<V(!new)>(g: map<V, Node<V>>) {
    exists rank: map<V, nat> :: Ranked(g, rank)
  }

  ghost function Hash<V(!new)>(h: Digest, g: map<V, Node<V>>, rank: map<V, nat>, n: V): Text
    requires Ranked(g, rank) && n in g
    decreases rank[n] + 1, 0
  {
    match g[n]
    case Leaf(hash) => hash
    case Alias(dep) => assert dep in DepsOf(g[n]); Hash(h, g, rank, dep)
    case Rule(own, deps) => h(own + HashAll(h, g, rank, deps, rank[n]))
  }

  /** The hashes of `deps`, end to end. */
  ghost function HashAll<V(!new)>(h: Digest, g: map<V, Node<V>>, rank: map<V, nat>, deps: seq<V>, bound: nat): Text
    requires Ranked(g, rank) && forall d | d in deps :: d in g && rank[d] < bound
    decreases bound, |deps|
  {
    if deps == [] then []
    else HashAll(h, g, rank, deps[..|deps| - 1], bound) + Hash(h, g, rank, deps[|deps| - 1])
  }

  /** The hash does not depend on the order that proves the graph acyclic. */
  lemma {:induction false} HashIgnoresRank<V(!new)>(h: Digest, g: map<V, Node<V>>, rank: map<V, nat>,
                                             rank': map<V, nat>, n: V)
    requires Ranked(g, rank) && Ranked(g, rank') && n in g
    ensures Hash(h, g, rank, n) == Hash(h, g, rank', n)
    decreases rank[n] + 1, 0
  {
    match g[n]
    case Leaf(_) =>
    case Alias(dep) =>
      assert dep in DepsOf(g[n]);
      HashIgnoresRank(h, g, rank, rank', dep);
    case Rule(_, deps) =>
      HashAllIgnoresRank(h, g, rank, rank', deps, rank[n], rank'[n]);
  }

  lemma {:induction false} HashAllIgnoresRank<V(!new)>(h: Digest, g: map<V, Node<V>>, rank: map<V, nat>,
                                                rank': map<V, nat>, deps: seq<V>, bound: nat, bound': nat)
    requires Ranked(g, rank) && Ranked(g, rank')
    requires forall d | d in deps :: d in g && rank[d] < bound && rank'[d] < bound'
    ensures HashAll(h, g, rank, deps, bound) == HashAll(h, g, rank', deps, bound')
    decreases bound, |deps|
  {
    if deps != [] {
      HashAllIgnoresRank(h, g, rank, rank', deps[..|deps| - 1], bound, bound');
      HashIgnoresRank(h, g, rank, rank', deps[|deps| - 1]);
    }
  }

  ghost function RankOf<V(!new)>(g: map<V, Node<V>>): (rank: map<V, nat>)
    requires Acyclic(g)
    ensures Ranked(g, rank)
  {
    var rank: map<V, nat> :| Ranked(g, rank);
    rank
  }

  /** The full hash of a target in an acyclic graph. */
  ghost function FullHash<V(!new)>(h: Digest, g: map<V, Node<V>>, n: V): Text
    requires Acyclic(g) && n in g
  {
    Hash(h, g, RankOf(g), n)
  }

  // ---- Renaming ----

  function RenameNode<V, W>(node: Node<V>, f: map<V, W>): Node<W>
    requires forall d | d in DepsOf(node) :: d in f
  {
    match node
    case Leaf(hash) => Leaf(hash)
    case Alias(dep) => assert dep in DepsOf(node); Alias(f[dep])
    case Rule(own, deps) => Rule(own, seq(|deps|, i requires 0 <= i < |deps| => (assert deps[i] in deps; f[deps[i]])))
  }

  /** `g'` is `g` with every node renamed by `f`. */
  ghost predicate RenamedBy<V(!new), W(!new)>(g: map<V, Node<V>>, g': map<W, Node<W>>, f: map<V, W>) {
    && Closed(g) && g.Keys <= f.Keys
    && (forall n | n in g :: f[n] in g' && g'[f[n]] == RenameNode(g[n], f))
  }

  lemma {:induction false} RenamingKeepsHash<V(!new), W(!new)>(h: Digest, g: map<V, Node<V>>, g': map<W, Node<W>>,
                                               f: map<V, W>, rank: map<V, nat>, rank': map<W, nat>, n: V)
    requires RenamedBy(g, g', f) && Ranked(g, rank) && Ranked(g', rank') && n in g
    ensures Hash(h, g, rank, n) == Hash(h, g', rank', f[n])
    decreases rank[n] + 1, 0
  {
    match g[n]
    case Leaf(_) =>
    case Alias(dep) =>
      assert dep in DepsOf(g[n]) && f[dep] in DepsOf(g'[f[n]]);
      RenamingKeepsHash(h, g, g', f, rank, rank', dep);
    case Rule(own, deps) =>
      var deps' := g'[f[n]].deps;
      RenamingKeepsHashAll(h, g, g', f, rank, rank', deps, deps', rank[n], rank'[f[n]]);
  }

  lemma {:induction false} RenamingKeepsHashAll<V(!new), W(!new)>(h: Digest, g: map<V, Node<V>>, g': map<W, Node<W>>,
                                                  f: map<V, W>, rank: map<V, nat>, rank': map<W, nat>,
                                         deps: seq<V>, deps': seq<W>, bound: nat, bound': nat)
    requires RenamedBy(g, g', f) && Ranked(g, rank) && Ranked(g', rank')
    requires |deps| == |deps'|
    requires forall d | d in deps :: d in g && rank[d] < bound
    requires forall d | d in deps' :: d in g' && rank'[d] < bound'
    requires forall i | 0 <= i < |deps| :: deps[i] in f && deps'[i] == f[deps[i]]
    ensures HashAll(h, g, rank, deps, bound) == HashAll(h, g', rank', deps', bound')
    decreases bound, |deps|
  {
    if deps != [] {
      RenamingKeepsHashAll(h, g, g', f, rank, rank', deps[..|deps| - 1], deps'[..|deps'| - 1], bound, bound');
      RenamingKeepsHash(h, g, g', f, rank, rank', deps[|deps| - 1]);
    }
  }

  // ---- Hashes kept beside the graph ----

  ghost predicate AllHashed<V(!new)>(hashes: map<V, Text>, deps: seq<V>) {
    forall d | d in deps :: d in hashes
  }

  ghost function Recorded<V(!new)>(hashes: map<V, Text>, deps: seq<V>): Text
    requires AllHashed(hashes, deps)
  {
    if deps == [] then [] else Recorded(hashes, deps[..|deps| - 1]) + hashes[deps[|deps| - 1]]
  }

  /** The recorded hash of `n` follows from the recorded hashes of its
      dependencies, all of which are recorded. */
  ghost predicate HashedAt<V(!new)>(h: Digest, g: map<V, Node<V>>, hashes: map<V, Text>, n: V)
    requires n in g && n in hashes
  {
    && AllHashed(hashes, DepsOf(g[n]))
    && hashes[n] == match g[n] {
      case Leaf(hash) => hash
      case Alias(dep) => (assert dep in DepsOf(g[n]); hashes[dep])
      case Rule(own, deps) => h(own + Recorded(hashes, deps))
    }
  }

  /** Recorded hashes that are locally right are the full hashes. */
  lemma {:induction false} LocalHashesAreFull<V(!new)>(h: Digest, g: map<V, Node<V>>, rank: map<V, nat>,
                                                hashes: map<V, Text>, n: V)
    requires Ranked(g, rank) && n in g && n in hashes
    requires forall m | m in g && m in hashes :: HashedAt(h, g, hashes, m)
    ensures hashes[n] == Hash(h, g, rank, n)
    decreases rank[n] + 1, 0
  {
    match g[n]
    case Leaf(_) =>
    case Alias(dep) =>
      assert dep in DepsOf(g[n]);
      LocalHashesAreFull(h, g, rank, hashes, dep);
    case Rule(_, deps) =>
      LocalHashesAreFullAll(h, g, rank, hashes, deps, rank[n]);
  }

  lemma {:induction false} LocalHashesAreFullAll<V(!new)>(h: Digest, g: map<V, Node<V>>, rank: map<V, nat>,
                                                   hashes: map<V, Text>, deps: seq<V>, bound: nat)
    requires Ranked(g, rank) && AllHashed(hashes, deps) && forall d | d in deps :: d in g && rank[d] < bound
    requires forall m | m in g && m in hashes :: HashedAt(h, g, hashes, m)
    ensures Recorded(hashes, deps) == HashAll(h, g, rank, deps, bound)
    decreases bound, |deps|
  {
    if deps != [] {
      LocalHashesAreFullAll(h, g, rank, hashes, deps[..|deps| - 1], bound);
      LocalHashesAreFull(h, g, rank, hashes, deps[|deps| - 1]);
    }
  }

  /** Full hashes are locally right. */
  lemma FullHashesAreLocal<V(!new)>(h: Digest, g: map<V, Node<V>>, rank: map<V, nat>, hashes: map<V, Text>, n: V)
    requires Ranked(g, rank) && hashes.Keys == g.Keys && n in g
    requires forall m | m in g :: hashes[m] == Hash(h, g, rank, m)
    ensures HashedAt(h, g, hashes, n)
  {
    match g[n]
    case Leaf(_) =>
    case Alias(dep) =>
      assert dep in DepsOf(g[n]);
    case Rule(_, deps) =>
      FullRecorded(h, g, rank, hashes, deps, rank[n]);
  }

  lemma {:induction false} FullRecorded<V(!new)>(h: Digest, g: map<V, Node<V>>, rank: map<V, nat>, hashes: map<V, Text>,
                                          deps: seq<V>, bound: nat)
    requires Ranked(g, rank) && hashes.Keys == g.Keys && forall d | d in deps :: d in g && rank[d] < bound
    requires forall m | m in g :: hashes[m] == Hash(h, g, rank, m)
    ensures AllHashed(hashes, deps) && Recorded(hashes, deps) == HashAll(h, g, rank, deps, bound)
    decreases |deps|
  {
    if deps != [] {
      FullRecorded(h, g, rank, hashes, deps[..|deps| - 1], bound);
    }
  }

  // ---- Hashing a rule's dependencies one by one ----

  /** `bytes` is `own` and the hashes of `list`, in order. */
  ghost predicate BytesOf<V(!new)>(h: Digest, g: map<V, Node<V>>, rank: map<V, nat>, bound: nat, own: Text,
                            list: seq<V>, bytes: Text) {
    && Ranked(g, rank) && (forall d | d in list :: d in g && rank[d] < bound)
    && bytes == own + HashAll(h, g, rank, list, bound)
  }

  lemma BytesOneMore<V(!new)>(h: Digest, g: map<V, Node<V>>, rank: map<V, nat>, bound: nat, own: Text, list: seq<V>,
                       bytes: Text, d: V, dephash: Text)
    requires BytesOf(h, g, rank, bound, own, list, bytes)
    requires d in g && d in rank && rank[d] < bound && dephash == Hash(h, g, rank, d)
    ensures BytesOf(h, g, rank, bound, own, list + [d], bytes + dephash)
  {
    hide Ranked, Hash;
    assert (list + [d])[..|list|] == list;
    assert own + HashAll(h, g, rank, list, bound) + dephash == own + (HashAll(h, g, rank, list, bound) + dephash);
  }
}
