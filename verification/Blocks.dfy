/** Content-defined blocks: runs of nodes that end where a label's hash says so,
    each with a digest of its labels. */
module Blocks {
  import opened ByteStrings
  import opened Varint
  import opened Snapshot

  type Hash = Text -> uint64

  /** The label ends a block wherever it stands: `xxhash(label) & (size-1) == 0`,
      for a size that is a power of two. */
  predicate Cuts(hash: Hash, size: nat, name: Text)
    requires size > 0
  {
    hash(name) % size == 0
  }

  /** The node at `i` ends the block begun at `lo`. */
  predicate Ends(hash: Hash, size: nat, names: seq<Text>, lo: nat, i: nat)
    requires size > 0 && lo <= i < |names|
  {
    Cuts(hash, size, names[i]) || i - lo + 1 >= 8 * size || i == |names| - 1
  }

  /** Where the block begun at `lo` that has reached `i` ends, exclusive. */
  function BlockEnd(hash: Hash, size: nat, names: seq<Text>, lo: nat, i: nat): (end: nat)
    requires size > 0 && lo <= i < |names| && i - lo < 8 * size
    ensures i < end <= |names| && end - lo <= 8 * size
    decreases |names| - i
  {
    if Ends(hash, size, names, lo, i) then i + 1 else BlockEnd(hash, size, names, lo, i + 1)
  }

  /** The first nodes of the blocks from `lo` on. */
  function Starts(hash: Hash, size: nat, names: seq<Text>, lo: nat): seq<nat>
    requires size > 0 && lo <= |names|
    decreases |names| - lo
  {
    if lo == |names| then [] else [lo] + Starts(hash, size, names, BlockEnd(hash, size, names, lo, lo))
  }

  /** The bytes a digest is taken over. */
  function Stream(names: seq<Text>): Text {
    if names == [] then [] else names[0] + [0] + Stream(names[1..])
  }

  function Digests(hash: Hash, size: nat, names: seq<Text>, lo: nat): (digests: seq<uint64>)
    requires size > 0 && lo <= |names|
    ensures |digests| == |Starts(hash, size, names, lo)|
    decreases |names| - lo
  {
    if lo == |names| then [] else
      var end := BlockEnd(hash, size, names, lo, lo);
      [hash(Stream(names[lo..end]))] + Digests(hash, size, names, end)
  }

  // ---- The loop ----

  lemma {:induction false} StreamAppend(names: seq<Text>, name: Text)
    ensures Stream(names + [name]) == Stream(names) + name + [0]
  {
    if names == [] {
      assert [name][1..] == [];
    } else {
      assert (names + [name])[1..] == names[1..] + [name];
      StreamAppend(names[1..], name);
    }
  }

  /** The digest of nodes `lo` to `hi`, label by label. */
  method BlockDigest(hash: Hash, names: seq<Text>, lo: nat, hi: nat) returns (digest: uint64)
    requires lo <= hi < |names|
    ensures digest == hash(Stream(names[lo..hi + 1]))
  {
    var written: Text := [];
    for i := lo to hi + 1
      invariant written == Stream(names[lo..i])
    {
      assert names[lo..i + 1] == names[lo..i] + [names[i]];
      StreamAppend(names[lo..i], names[i]);
      written := written + names[i] + [0];
    }
    digest := hash(written);
  }

  lemma FirstBlock(hash: Hash, size: nat, names: seq<Text>, lo: nat)
    requires size > 0 && lo < |names|
    ensures var end := BlockEnd(hash, size, names, lo, lo);
      && Starts(hash, size, names, lo) == [lo] + Starts(hash, size, names, end)
      && Digests(hash, size, names, lo) == [hash(Stream(names[lo..end]))] + Digests(hash, size, names, end)
  {
    hide Stream, BlockEnd;
  }

  lemma BlocksFrom(hash: Hash, size: nat, names: seq<Text>, lo: nat, i: nat)
    requires size > 0 && lo <= i < |names| && i - lo < 8 * size && Ends(hash, size, names, lo, i)
    requires BlockEnd(hash, size, names, lo, lo) == BlockEnd(hash, size, names, lo, i)
    ensures Starts(hash, size, names, lo) == [lo] + Starts(hash, size, names, i + 1)
    ensures Digests(hash, size, names, lo) == [hash(Stream(names[lo..i + 1]))] + Digests(hash, size, names, i + 1)
  {
  }

  method BuildBlocks(hash: Hash, size: nat, names: seq<Text>) returns (starts: seq<nat>, digests: seq<uint64>)
    requires size > 0
    ensures starts == Starts(hash, size, names, 0) && digests == Digests(hash, size, names, 0)
  {
    hide Starts, Digests, Stream;
    starts, digests := [], [];
    var blockStart := 0;
    for i := 0 to |names|
      invariant 0 <= blockStart <= i && (i == |names| ==> blockStart == i) && i - blockStart < 8 * size
      invariant i < |names| ==>
        BlockEnd(hash, size, names, blockStart, blockStart) == BlockEnd(hash, size, names, blockStart, i)
      invariant starts + Starts(hash, size, names, blockStart) == Starts(hash, size, names, 0)
      invariant digests + Digests(hash, size, names, blockStart) == Digests(hash, size, names, 0)
    {
      var sz := i - blockStart + 1;
      var cut := hash(names[i]) % size == 0;
      if sz >= 8 * size {
        cut := true;
      }
      if cut || i == |names| - 1 {
        var digest := BlockDigest(hash, names, blockStart, i);
        BlocksFrom(hash, size, names, blockStart, i);
        starts := starts + [blockStart];
        digests := digests + [digest];
        blockStart := i + 1;
      }
    }
    NoBlocks(hash, size, names);
  }

  lemma NoBlocks(hash: Hash, size: nat, names: seq<Text>)
    requires size > 0
    ensures Starts(hash, size, names, |names|) == [] && Digests(hash, size, names, |names|) == []
  {
  }

  // ---- What the blocks are ----

  /** Where block `k` ends. */
  function EndOf(starts: seq<nat>, n: nat, k: nat): nat
    requires k < |starts|
  {
    if k + 1 < |starts| then starts[k + 1] else n
  }

  /** The blocks cut the nodes from `lo` on into non-empty runs of at most eight
      times the block size, and every digest is of its own run's labels. */
  lemma {:induction false} BlocksPartition(hash: Hash, size: nat, names: seq<Text>, lo: nat)
    requires size > 0 && lo <= |names|
    ensures var starts, digests := Starts(hash, size, names, lo), Digests(hash, size, names, lo);
      && (starts == [] <==> lo == |names|) && (starts != [] ==> starts[0] == lo)
      && (forall k | 0 <= k < |starts| :: lo <= starts[k] < EndOf(starts, |names|, k) <= |names|)
      && (forall k | 0 <= k < |starts| :: EndOf(starts, |names|, k) - starts[k] <= 8 * size)
      && (forall k | 0 <= k < |starts| :: digests[k] == hash(Stream(names[starts[k]..EndOf(starts, |names|, k)])))
    decreases |names| - lo
  {
    hide Stream, Starts, Digests, BlockEnd;
    if lo == |names| {
      NoBlocks(hash, size, names);
    } else {
      var end := BlockEnd(hash, size, names, lo, lo);
      BlocksPartition(hash, size, names, end);
      FirstBlock(hash, size, names, lo);
      var starts, rest := Starts(hash, size, names, lo), Starts(hash, size, names, end);
      forall k | 0 < k < |starts| ensures EndOf(starts, |names|, k) == EndOf(rest, |names|, k - 1) {
      }
    }
  }

  /** The run ends at its first label that its hash singles out, at eight times
      the block size, or with the list. */
  ghost predicate EndsFirst(hash: Hash, size: nat, names: seq<Text>, lo: nat, end: nat)
    requires size > 0
  {
    && lo < end <= |names|
    && (hash(names[end - 1]) % size == 0 || end - lo == 8 * size || end == |names|)
    && forall j | lo <= j < end - 1 :: hash(names[j]) % size != 0
  }

  lemma {:induction false} EndIsFirst(hash: Hash, size: nat, names: seq<Text>, lo: nat, i: nat)
    requires size > 0 && lo <= i < |names| && i - lo < 8 * size
    requires forall j | lo <= j < i :: hash(names[j]) % size != 0
    ensures EndsFirst(hash, size, names, lo, BlockEnd(hash, size, names, lo, i))
    decreases |names| - i
  {
    if !Ends(hash, size, names, lo, i) {
      EndIsFirst(hash, size, names, lo, i + 1);
    }
  }

  lemma StartOfRest(hash: Hash, size: nat, names: seq<Text>, lo: nat)
    requires size > 0 && lo <= |names|
    ensures var rest := Starts(hash, size, names, lo); if lo == |names| then rest == [] else rest != [] && rest[0] == lo
  {
    hide BlockEnd;
  }

  /** Every block is as long as can be. */
  lemma {:induction false} BlocksEndFirst(hash: Hash, size: nat, names: seq<Text>, lo: nat, k: nat)
    requires size > 0 && lo <= |names| && k < |Starts(hash, size, names, lo)|
    ensures var starts := Starts(hash, size, names, lo);
      EndsFirst(hash, size, names, starts[k], EndOf(starts, |names|, k))
    decreases k
  {
    hide Stream, Starts, Digests, BlockEnd, EndsFirst;
    StartOfRest(hash, size, names, lo);
    if lo < |names| {
      var end := BlockEnd(hash, size, names, lo, lo);
      FirstBlock(hash, size, names, lo);
      StartOfRest(hash, size, names, end);
      var starts, rest := Starts(hash, size, names, lo), Starts(hash, size, names, end);
      if k == 0 {
        EndIsFirst(hash, size, names, lo, lo);
        assert EndOf(starts, |names|, 0) == end;
      } else {
        BlocksEndFirst(hash, size, names, end, k - 1);
        assert EndOf(starts, |names|, k) == EndOf(rest, |names|, k - 1);
      }
    }
  }

  lemma {:induction false} StartsAscend(starts: seq<nat>, n: nat, i: nat, j: nat)
    requires forall k | 0 <= k < |starts| :: starts[k] < EndOf(starts, n, k)
    requires i < j < |starts|
    ensures starts[i] < starts[j]
    decreases j
  {
    assert starts[j - 1] < EndOf(starts, n, j - 1);
    if i < j - 1 {
      StartsAscend(starts, n, i, j - 1);
    }
  }

  lemma BlocksAreStarts(hash: Hash, size: nat, names: seq<Text>)
    requires size > 0
    ensures PartitionStarts(Starts(hash, size, names, 0), |names|)
  {
    BlocksPartition(hash, size, names, 0);
    var starts := Starts(hash, size, names, 0);
    forall k | 0 <= k < |starts| ensures starts[k] < EndOf(starts, |names|, k) <= |names| {
    }
    forall i, j | 0 <= i < j < |starts| ensures starts[i] < starts[j] {
      StartsAscend(starts, |names|, i, j);
    }
  }

  // ---- Resynchronisation ----

  lemma {:induction false} EndAtCut(hash: Hash, size: nat, names: seq<Text>, lo: nat, i: nat, p: nat)
    requires size > 0 && lo <= i <= p < |names| && i - lo < 8 * size && Cuts(hash, size, names[p])
    ensures BlockEnd(hash, size, names, lo, i) <= p + 1
    decreases |names| - i
  {
    if !Ends(hash, size, names, lo, i) {
      EndAtCut(hash, size, names, lo, i + 1, p);
    }
  }

  lemma TailOf<T>(x: T, s: seq<T>, m: nat)
    requires m <= |s|
    ensures ([x] + s)[|s| + 1 - m..] == s[|s| - m..]
  {
  }

  /** After a content-defined cut the blocks go on as if they began there. */
  lemma {:induction false} RestartAtCut(hash: Hash, size: nat, names: seq<Text>, lo: nat, p: nat)
    requires size > 0 && lo <= p < |names| && Cuts(hash, size, names[p])
    ensures var starts, digests, m := Starts(hash, size, names, lo), Digests(hash, size, names, lo),
        |Starts(hash, size, names, p + 1)|;
      && m <= |starts| && starts[|starts| - m..] == Starts(hash, size, names, p + 1)
      && digests[|starts| - m..] == Digests(hash, size, names, p + 1)
      && forall k | 0 <= k < |starts| - m :: starts[k] <= p
    decreases |names| - lo
  {
    hide Stream, Starts, Digests, BlockEnd, Cuts;
    var end := BlockEnd(hash, size, names, lo, lo);
    EndAtCut(hash, size, names, lo, lo, p);
    FirstBlock(hash, size, names, lo);
    var m := |Starts(hash, size, names, p + 1)|;
    if end <= p {
      RestartAtCut(hash, size, names, end, p);
    }
    TailOf(lo, Starts(hash, size, names, end), m);
    TailOf(hash(Stream(names[lo..end])), Digests(hash, size, names, end), m);
  }

  /** `starts`, counted from `ahead` nodes earlier. */
  function Shifted(starts: seq<nat>, ahead: nat): (s: seq<nat>)
    ensures |s| == |starts|
  {
    seq(|starts|, k requires 0 <= k < |starts| => starts[k] + ahead)
  }

  lemma {:induction false} EndInSuffix(hash: Hash, size: nat, before: seq<Text>, suffix: seq<Text>, lo: nat, i: nat)
    requires size > 0 && lo <= i < |suffix| && i - lo < 8 * size
    ensures BlockEnd(hash, size, before + suffix, |before| + lo, |before| + i) ==
            |before| + BlockEnd(hash, size, suffix, lo, i)
    decreases |suffix| - i
  {
    if !Ends(hash, size, suffix, lo, i) {
      EndInSuffix(hash, size, before, suffix, lo, i + 1);
    }
  }

  /** The blocks from a node on depend on the labels from there on, and on no
      others. */
  lemma {:induction false} BlocksOfSuffix(hash: Hash, size: nat, before: seq<Text>, suffix: seq<Text>, lo: nat)
    requires size > 0 && lo <= |suffix|
    ensures Starts(hash, size, before + suffix, |before| + lo) == Shifted(Starts(hash, size, suffix, lo), |before|)
    ensures Digests(hash, size, before + suffix, |before| + lo) == Digests(hash, size, suffix, lo)
    decreases |suffix| - lo
  {
    hide Stream, BlockEnd, Starts, Digests;
    if lo == |suffix| {
      NoBlocks(hash, size, suffix);
      NoBlocks(hash, size, before + suffix);
    } else {
      FirstBlock(hash, size, suffix, lo);
      FirstBlock(hash, size, before + suffix, |before| + lo);
      var end := BlockEnd(hash, size, suffix, lo, lo);
      EndInSuffix(hash, size, before, suffix, lo, lo);
      BlocksOfSuffix(hash, size, before, suffix, end);
      assert (before + suffix)[|before| + lo..|before| + end] == suffix[lo..end];
    }
  }

  /** Two lists with a common suffix that holds a content-defined cut: behind the
      cut they have the same block boundaries and digests, whatever stands in
      front. */
  lemma Resynchronise(hash: Hash, size: nat, before: seq<Text>, after: seq<Text>, suffix: seq<Text>, p: nat)
    requires size > 0 && p < |suffix| && Cuts(hash, size, suffix[p])
    ensures
      var starts, m := Starts(hash, size, suffix, p + 1), |Starts(hash, size, suffix, p + 1)|;
      var b, bd := Starts(hash, size, before + suffix, 0), Digests(hash, size, before + suffix, 0);
      var a, ad := Starts(hash, size, after + suffix, 0), Digests(hash, size, after + suffix, 0);
      && m <= |b| && m <= |a|
      && b[|b| - m..] == Shifted(starts, |before|) && a[|a| - m..] == Shifted(starts, |after|)
      && bd[|b| - m..] == ad[|a| - m..]
      && (forall k | 0 <= k < |b| - m :: b[k] <= |before| + p) && forall k | 0 <= k < |a| - m :: a[k] <= |after| + p
  {
    hide Starts, Digests;
    BlocksOfSuffix(hash, size, before, suffix, p + 1);
    BlocksOfSuffix(hash, size, after, suffix, p + 1);
    RestartAtCut(hash, size, before + suffix, 0, |before| + p);
    RestartAtCut(hash, size, after + suffix, 0, |after| + p);
  }

  // ---- Digests tell label lists apart ----

  ghost predicate NulFree(names: seq<Text>) {
    forall i | 0 <= i < |names| :: 0 !in names[i]
  }

  lemma Head(b: Text, s: Text)
    requires 0 !in b
    ensures (b + [0] + s)[0] == 0 <==> b == []
    ensures b == [] ==> (b + [0] + s)[1..] == s
    ensures b != [] ==> (b + [0] + s)[0] == b[0] && 0 !in b[1..] && (b + [0] + s)[1..] == b[1..] + [0] + s
  {
  }

  lemma {:induction false} FirstNul(a: Text, b: Text, r: Text, s: Text)
    requires 0 !in a && 0 !in b && a + [0] + r == b + [0] + s
    ensures a == b && r == s
  {
    Head(a, r);
    Head(b, s);
    if a != [] {
      FirstNul(a[1..], b[1..], r, s);
    }
  }

  /** Labels without NUL bytes: different label lists are different streams. */
  lemma {:induction false} StreamsDiffer(xs: seq<Text>, ys: seq<Text>)
    requires NulFree(xs) && NulFree(ys) && Stream(xs) == Stream(ys)
    ensures xs == ys
    decreases |xs|
  {
    if xs != [] && ys != [] {
      FirstNul(xs[0], ys[0], Stream(xs[1..]), Stream(ys[1..]));
      StreamsDiffer(xs[1..], ys[1..]);
      assert xs == [xs[0]] + xs[1..] && ys == [ys[0]] + ys[1..];
    }
  }
}
