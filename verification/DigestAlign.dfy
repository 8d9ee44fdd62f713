/** Phase 0 as the comparison runs it: blocks with equal digests are paired
    without reading a key, and only the gaps between them are merge-joined.
    The result is the alignment of Align.dfy. */
module DigestAlign {
  import opened Wrappers
  import opened ByteStrings
  import opened Sorting
  import opened Snapshot
  import opened Align

  /** Node ranges [bStart, bEnd) and [aStart, aEnd) paired offset by offset. */
  datatype Chunk = Chunk(bStart: int, bEnd: int, aStart: int, aEnd: int)

  datatype BlockRange = BlockRange(blockIdx: int, start: int, end: int)

  ghost predicate Paired(xs: seq<Key>, ys: seq<Key>, c: Chunk) {
    && 0 <= c.bStart < c.bEnd <= |xs| && 0 <= c.aStart < c.aEnd <= |ys|
    && c.bEnd - c.bStart == c.aEnd - c.aStart
    && xs[c.bStart..c.bEnd] == ys[c.aStart..c.aEnd]
  }

  /** Ascending on both sides, with no overlap, up to (b, a). */
  ghost predicate InOrderUpTo(xs: seq<Key>, ys: seq<Key>, chunks: seq<Chunk>, b: int, a: int) {
    && (forall i | 0 <= i < |chunks| :: Paired(xs, ys, chunks[i]) && chunks[i].bEnd <= b && chunks[i].aEnd <= a)
    && (forall i, j | 0 <= i < j < |chunks| :: chunks[i].bEnd <= chunks[j].bStart && chunks[i].aEnd <= chunks[j].aStart)
  }

  /** Blocks with equal digests and equal lengths hold equal keys. */
  ghost predicate DigestsHonest(before: Snapshot, after: Snapshot)
    requires |before.blockStarts| == |before.blockDigests| && |after.blockStarts| == |after.blockDigests|
    requires PartitionStarts(before.blockStarts, before.NodeCount())
    requires PartitionStarts(after.blockStarts, after.NodeCount())
  {
    forall i, j | 0 <= i < |before.blockStarts| && 0 <= j < |after.blockStarts| &&
        before.blockDigests[i] == after.blockDigests[j] ::
      var b, a := Block(before, i), Block(after, j);
      |b| == |a| ==> b == a
  }

  function BlockEnd(r: Snapshot, i: int): (e: int)
    requires 0 <= i < |r.blockStarts|
  {
    if i + 1 < |r.blockStarts| then r.blockStarts[i + 1] else r.NodeCount()
  }

  /** The keys of block `i`. */
  ghost function Block(r: Snapshot, i: int): seq<Key>
    requires 0 <= i < |r.blockStarts| && PartitionStarts(r.blockStarts, r.NodeCount())
  {
    r.keys[r.blockStarts[i]..BlockEnd(r, i)]
  }

  // ---- Chunks as pairs ----

  function Diagonal(b: int, a: int, n: nat): seq<(int, int)> {
    if n == 0 then [] else Diagonal(b, a, n - 1) + [(b + n - 1, a + n - 1)]
  }

  ghost function Flatten(chunks: seq<Chunk>): seq<(int, int)> {
    if chunks == [] then []
    else
      var c := chunks[|chunks| - 1];
      Flatten(chunks[..|chunks| - 1]) +
          (if c.bStart <= c.bEnd then Diagonal(c.bStart, c.aStart, c.bEnd - c.bStart) else [])
  }

  lemma FlattenSnoc(chunks: seq<Chunk>, c: Chunk)
    requires c.bStart <= c.bEnd
    ensures Flatten(chunks + [c]) == Flatten(chunks) + Diagonal(c.bStart, c.aStart, c.bEnd - c.bStart)
  {
    assert (chunks + [c])[..|chunks|] == chunks;
  }

  /** A diagonal joins the runs whole. */
  lemma {:induction false} CoalesceDiagonal(pairs: seq<(int, int)>, b: int, a: int, n: nat)
    requires n > 0
    ensures Coalesce(pairs + Diagonal(b, a, n)) == Grown(Coalesce(pairs), b, a, n)
  {
    hide Grown;
    var front := pairs + Diagonal(b, a, n - 1);
    assert pairs + Diagonal(b, a, n) == front + [(b + n - 1, a + n - 1)];
    CoalesceSnoc(front, b + n - 1, a + n - 1);
    if n == 1 {
      assert front == pairs;
    } else {
      CoalesceDiagonal(pairs, b, a, n - 1);
      GrownTwice(Coalesce(pairs), b, a, n - 1, 1);
    }
  }

  lemma DiagonalStep(pairs: seq<(int, int)>, b: int, a: int, n: nat)
    requires n > 0
    ensures pairs + Diagonal(b, a, n - 1) + [(b + n - 1, a + n - 1)] == pairs + Diagonal(b, a, n)
  {
  }

  /** Passing over a chunk adds its diagonal and nothing else. */
  lemma {:induction false} PassChunk(xs: seq<Key>, ys: seq<Key>, b: int, a: int, n: nat)
    requires Ascending(xs) && Ascending(ys)
    requires n > 0 && 0 <= b && b + n <= |xs| && 0 <= a && a + n <= |ys|
    requires xs[b..b + n] == ys[a..a + n]
    ensures CleanCut(xs, ys, b, a) && CleanCut(xs, ys, b + n, a + n)
    ensures MatchesUpTo(xs, ys, b + n) == MatchesUpTo(xs, ys, b) + Diagonal(b, a, n)
    ensures AbsentUpTo(xs, ys, b + n) == AbsentUpTo(xs, ys, b)
    ensures AbsentUpTo(ys, xs, a + n) == AbsentUpTo(ys, xs, a)
  {
    hide CleanCut, Ascending, MatchesUpTo, AbsentUpTo;
    assert xs[b + n - 1] == xs[b..b + n][n - 1] == ys[a..a + n][n - 1] == ys[a + n - 1];
    StepMatch(xs, ys, b + n - 1, a + n - 1);
    if n == 1 {
      CutAtMatch(xs, ys, b, a);
      assert Diagonal(b, a, 0) == [];
    } else {
      assert xs[b..b + (n - 1)] == xs[b..b + n][..n - 1] == ys[a..a + n][..n - 1] == ys[a..a + (n - 1)];
      PassChunk(xs, ys, b, a, n - 1);
      DiagonalStep(MatchesUpTo(xs, ys, b), b, a, n);
    }
  }

  // ---- Pairing blocks by digest ----

  ghost predicate Queued(after: Snapshot, d: int, br: BlockRange) {
    && 0 <= br.blockIdx < |after.blockStarts| == |after.blockDigests|
    && after.blockDigests[br.blockIdx] == d
    && br.start == after.blockStarts[br.blockIdx] && br.end == BlockEnd(after, br.blockIdx)
  }

  lemma BlocksPair(before: Snapshot, after: Snapshot, i: int, j: int)
    requires |before.blockStarts| == |before.blockDigests| && |after.blockStarts| == |after.blockDigests|
    requires PartitionStarts(before.blockStarts, before.NodeCount())
    requires PartitionStarts(after.blockStarts, after.NodeCount())
    requires DigestsHonest(before, after)
    requires 0 <= i < |before.blockStarts| && 0 <= j < |after.blockStarts|
    requires before.blockDigests[i] == after.blockDigests[j]
    requires BlockEnd(before, i) - before.blockStarts[i] == BlockEnd(after, j) - after.blockStarts[j]
    ensures Paired(before.keys, after.keys,
        Chunk(before.blockStarts[i], BlockEnd(before, i), after.blockStarts[j], BlockEnd(after, j)))
  {
    var b, a := before.blockStarts[i], after.blockStarts[j];
    assert Block(before, i) == Block(after, j);
  }

  method IndexDigests(after: Snapshot) returns (aDigestMap: map<int, seq<BlockRange>>)
    requires |after.blockStarts| == |after.blockDigests|
    ensures forall d, br | d in aDigestMap && br in aDigestMap[d] :: Queued(after, d, br)
  {
    aDigestMap := map[];
    for i := 0 to |after.blockDigests|
      invariant forall d, br | d in aDigestMap && br in aDigestMap[d] :: Queued(after, d, br)
    {
      var d := after.blockDigests[i];
      var queue := if d in aDigestMap then aDigestMap[d] else [];
      aDigestMap := aDigestMap[d := queue + [BlockRange(i, after.blockStarts[i], BlockEnd(after, i))]];
    }
  }

  method MatchBlocks(before: Snapshot, after: Snapshot) returns (pairs: seq<Chunk>)
    requires |before.blockStarts| == |before.blockDigests| && |after.blockStarts| == |after.blockDigests|
    requires PartitionStarts(before.blockStarts, before.NodeCount())
    requires PartitionStarts(after.blockStarts, after.NodeCount())
    requires DigestsHonest(before, after)
    ensures InOrderUpTo(before.keys, after.keys, pairs, before.NodeCount(), after.NodeCount())
  {
    hide DigestsHonest;
    var aDigestMap := IndexDigests(after);
    var aQueuePtr: map<int, nat> := map[];
    var afterPos := 0;
    pairs := [];
    ghost var reached := 0;
    for bi := 0 to |before.blockDigests|
      invariant 0 <= afterPos <= after.NodeCount()
      invariant 0 <= reached <= before.NodeCount() && (bi < |before.blockStarts| ==> reached <= before.blockStarts[bi])
      invariant InOrderUpTo(before.keys, after.keys, pairs, reached, afterPos)
    {
      var bStart, bEnd := before.blockStarts[bi], BlockEnd(before, bi);
      var d := before.blockDigests[bi];
      if d in aDigestMap {
        var queue := aDigestMap[d];
        var ptr: nat := if d in aQueuePtr then aQueuePtr[d] else 0;
        while ptr < |queue|
        {
          var br := queue[ptr];
          assert Queued(after, d, br);
          ptr := ptr + 1;
          if br.start < afterPos || br.end - br.start != bEnd - bStart {
            continue;
          }
          BlocksPair(before, after, bi, br.blockIdx);
          pairs := pairs + [Chunk(bStart, bEnd, br.start, br.end)];
          afterPos := br.end;
          reached := bEnd;
          break;
        }
        aQueuePtr := aQueuePtr[d := ptr];
      }
    }
  }

  // ---- Joining the gaps ----

  /** The state of alignment at a clean cut: everything left of it is placed. */
  ghost predicate PlacedUpTo(xs: seq<Key>, ys: seq<Key>, chunks: seq<Chunk>, deleted: seq<int>, inserted: seq<int>,
                             b: int, a: int) {
    && CleanCut(xs, ys, b, a)
    && InOrderUpTo(xs, ys, chunks, b, a)
    && Flatten(chunks) == MatchesUpTo(xs, ys, b)
    && deleted == AbsentUpTo(xs, ys, b)
    && inserted == AbsentUpTo(ys, xs, a)
  }

  lemma PlaceMatch(xs: seq<Key>, ys: seq<Key>, chunks: seq<Chunk>, deleted: seq<int>, inserted: seq<int>, c: Chunk)
    requires Ascending(xs) && Ascending(ys)
    requires PlacedUpTo(xs, ys, chunks, deleted, inserted, c.bStart, c.aStart) && Paired(xs, ys, c)
    ensures PlacedUpTo(xs, ys, chunks + [c], deleted, inserted, c.bEnd, c.aEnd)
  {
    hide CleanCut, Ascending, MatchesUpTo, AbsentUpTo, Flatten;
    FlattenSnoc(chunks, c);
    PassChunk(xs, ys, c.bStart, c.aStart, c.bEnd - c.bStart);
  }

  lemma PlaceDeleted(xs: seq<Key>, ys: seq<Key>, chunks: seq<Chunk>, deleted: seq<int>, inserted: seq<int>, b: int,
                     a: int)
    requires Ascending(xs) && Ascending(ys)
    requires PlacedUpTo(xs, ys, chunks, deleted, inserted, b, a) && b < |xs|
    requires a < |ys| ==> KeyLess(xs[b], ys[a])
    ensures PlacedUpTo(xs, ys, chunks, deleted + [b], inserted, b + 1, a)
  {
    hide CleanCut, Ascending;
    CutInBounds(xs, ys, b, a);
    StepDeleted(xs, ys, b, a);
  }

  lemma PlaceInserted(xs: seq<Key>, ys: seq<Key>, chunks: seq<Chunk>, deleted: seq<int>, inserted: seq<int>, b: int,
                      a: int)
    requires Ascending(xs) && Ascending(ys)
    requires PlacedUpTo(xs, ys, chunks, deleted, inserted, b, a) && a < |ys|
    requires b < |xs| ==> xs[b] != ys[a] && !KeyLess(xs[b], ys[a])
    ensures PlacedUpTo(xs, ys, chunks, deleted, inserted + [a], b, a + 1)
  {
    hide CleanCut, Ascending;
    CutInBounds(xs, ys, b, a);
    StepInserted(xs, ys, b, a);
  }

  lemma CutInBounds(xs: seq<Key>, ys: seq<Key>, b: int, a: int)
    requires CleanCut(xs, ys, b, a)
    ensures 0 <= b <= |xs| && 0 <= a <= |ys|
  {
  }

  /** Nothing between two clean cuts matches anything outside them. */
  lemma CutsSeparate(xs: seq<Key>, ys: seq<Key>, b: int, a: int, b1: int, a1: int)
    requires CleanCut(xs, ys, b, a) && CleanCut(xs, ys, b1, a1)
    ensures b < b1 && a == a1 && a < |ys| ==> KeyLess(xs[b], ys[a])
    ensures a < a1 && b == b1 && b < |xs| ==> xs[b] != ys[a] && !KeyLess(xs[b], ys[a])
  {
    if a < a1 && b == b1 && b < |xs| {
      assert KeyLess(ys[a], xs[b]);
      if KeyLess(xs[b], ys[a]) {
        KeyLessTransitive(xs[b], ys[a], xs[b]);
      }
      KeyLessIrreflexive(xs[b]);
    }
  }

  /** The merge-join of one gap. `added` is what it appended to `pairs`. */
  method MergeGap(before: Snapshot, after: Snapshot, gb0: int, gb1: int, ga0: int, ga1: int,
                  pairs0: seq<Chunk>, deleted0: seq<int>, inserted0: seq<int>, ghost placed: seq<Chunk>)
    returns (pairs: seq<Chunk>, deletedBefore: seq<int>, insertedAfter: seq<int>, ghost added: seq<Chunk>)
    requires Ascending(before.keys) && Ascending(after.keys)
    requires PlacedUpTo(before.keys, after.keys, placed, deleted0, inserted0, gb0, ga0)
    requires CleanCut(before.keys, after.keys, gb1, ga1) && gb0 <= gb1 && ga0 <= ga1
    ensures pairs == pairs0 + added
    ensures PlacedUpTo(before.keys, after.keys, placed + added, deletedBefore, insertedAfter, gb1, ga1)
  {
    hide PlacedUpTo, Ascending;
    var xs, ys := before.keys, after.keys;
    CutInBounds(xs, ys, gb1, ga1);
    assert 0 <= gb0 && 0 <= ga0 by {
      PlacedCut(xs, ys, placed, deleted0, inserted0, gb0, ga0);
      CutInBounds(xs, ys, gb0, ga0);
    }
    hide CleanCut;
    pairs, deletedBefore, insertedAfter, added := pairs0, deleted0, inserted0, [];
    assert placed + added == placed;
    var bi, ai := gb0, ga0;
    while bi < gb1 && ai < ga1
      invariant gb0 <= bi <= gb1 && ga0 <= ai <= ga1
      invariant pairs == pairs0 + added
      invariant PlacedUpTo(xs, ys, placed + added, deletedBefore, insertedAfter, bi, ai)
      decreases gb1 - bi + ga1 - ai
    {
      if xs[bi] == ys[ai] {
        var c := Chunk(bi, bi + 1, ai, ai + 1);
        PlaceMatch(xs, ys, placed + added, deletedBefore, insertedAfter, c);
        assert placed + added + [c] == placed + (added + [c]);
        pairs, added := pairs + [c], added + [c];
        bi, ai := bi + 1, ai + 1;
      } else if KeyLess(xs[bi], ys[ai]) {
        PlaceDeleted(xs, ys, placed + added, deletedBefore, insertedAfter, bi, ai);
        deletedBefore := deletedBefore + [bi];
        bi := bi + 1;
      } else {
        PlaceInserted(xs, ys, placed + added, deletedBefore, insertedAfter, bi, ai);
        insertedAfter := insertedAfter + [ai];
        ai := ai + 1;
      }
    }
    while bi < gb1
      invariant gb0 <= bi <= gb1 && ga0 <= ai <= ga1 && (bi < gb1 ==> ai == ga1)
      invariant PlacedUpTo(xs, ys, placed + added, deletedBefore, insertedAfter, bi, ai)
    {
      PlacedCut(xs, ys, placed + added, deletedBefore, insertedAfter, bi, ai);
      CutsSeparate(xs, ys, bi, ai, gb1, ga1);
      PlaceDeleted(xs, ys, placed + added, deletedBefore, insertedAfter, bi, ai);
      deletedBefore := deletedBefore + [bi];
      bi := bi + 1;
    }
    while ai < ga1
      invariant ga0 <= ai <= ga1
      invariant PlacedUpTo(xs, ys, placed + added, deletedBefore, insertedAfter, bi, ai)
    {
      PlacedCut(xs, ys, placed + added, deletedBefore, insertedAfter, bi, ai);
      CutsSeparate(xs, ys, bi, ai, gb1, ga1);
      PlaceInserted(xs, ys, placed + added, deletedBefore, insertedAfter, bi, ai);
      insertedAfter := insertedAfter + [ai];
      ai := ai + 1;
    }
  }

  lemma PlacedCut(xs: seq<Key>, ys: seq<Key>, chunks: seq<Chunk>, deleted: seq<int>, inserted: seq<int>, b: int, a: int)
    requires PlacedUpTo(xs, ys, chunks, deleted, inserted, b, a)
    ensures CleanCut(xs, ys, b, a)
  {
  }

  predicate ByBStart(p: Chunk, q: Chunk) {
    p.bStart <= q.bStart
  }

  /** Sorting restores the placed order, whatever order chunks were found in. */
  lemma SortRestoresOrder(xs: seq<Key>, ys: seq<Key>, pairs: seq<Chunk>, placed: seq<Chunk>, b: int, a: int)
    requires InOrderUpTo(xs, ys, placed, b, a) && multiset(pairs) == multiset(placed)
    ensures Sort(ByBStart, pairs) == placed
  {
    SortSorted(ByBStart, pairs);
    forall i, j | 0 <= i < j < |placed| ensures placed[i].bStart < placed[j].bStart {
      assert Paired(xs, ys, placed[i]);
    }
    forall p, q | p in placed && q in placed && ByBStart(p, q) && ByBStart(q, p) ensures p == q {
      var i :| 0 <= i < |placed| && placed[i] == p;
      var j :| 0 <= j < |placed| && placed[j] == q;
    }
    SameElements(Sort(ByBStart, pairs), placed);
    SortedUnique(ByBStart, Sort(ByBStart, pairs), placed);
  }

  /** Adjacent chunks merged into maximal runs. */
  method MergeAdjacent(pairs: seq<Chunk>, ghost xs: seq<Key>, ghost ys: seq<Key>) returns (runs: seq<Run>)
    requires InOrderUpTo(xs, ys, pairs, |xs|, |ys|)
    ensures runs == Coalesce(Flatten(pairs))
  {
    hide Coalesce, Flatten, InOrderUpTo;
    runs := [];
    var i := 0;
    assert runs == Coalesce(Flatten(pairs[..0])) by {
      FlattenEmpty();
      assert pairs[..0] == [];
    }
    while i < |pairs|
      invariant 0 <= i <= |pairs| && runs == Coalesce(Flatten(pairs[..i]))
      invariant i < |pairs| ==> !Continues(runs, pairs[i].bStart, pairs[i].aStart)
    {
      var run := Run(pairs[i].bStart, pairs[i].aStart, pairs[i].bEnd - pairs[i].bStart);
      AddChunk(xs, ys, pairs, i);
      var j := i + 1;
      while j < |pairs| && pairs[j].bStart == pairs[j - 1].bEnd && pairs[j].aStart == pairs[j - 1].aEnd
        invariant i < j <= |pairs|
        invariant runs + [run] == Coalesce(Flatten(pairs[..j]))
        invariant run.beforeStart + run.length == pairs[j - 1].bEnd && run.afterStart + run.length == pairs[j - 1].aEnd
      {
        AddChunk(xs, ys, pairs, j);
        run := run.(length := run.length + (pairs[j].bEnd - pairs[j].bStart));
        j := j + 1;
      }
      runs := runs + [run];
      i := j;
    }
    assert pairs[..|pairs|] == pairs;
  }

  lemma FlattenEmpty()
    ensures Coalesce(Flatten([])) == []
  {
  }

  lemma AddChunk(xs: seq<Key>, ys: seq<Key>, pairs: seq<Chunk>, i: int)
    requires InOrderUpTo(xs, ys, pairs, |xs|, |ys|) && 0 <= i < |pairs|
    ensures Coalesce(Flatten(pairs[..i + 1])) ==
            Grown(Coalesce(Flatten(pairs[..i])), pairs[i].bStart, pairs[i].aStart, pairs[i].bEnd - pairs[i].bStart)
    ensures pairs[i].bEnd - pairs[i].bStart == pairs[i].aEnd - pairs[i].aStart
  {
    hide Coalesce, Grown, Flatten;
    var c := pairs[i];
    assert Paired(xs, ys, c);
    assert pairs[..i + 1] == pairs[..i] + [c];
    FlattenSnoc(pairs[..i], c);
    CoalesceDiagonal(Flatten(pairs[..i]), c.bStart, c.aStart, c.bEnd - c.bStart);
  }

  lemma Regroup(pairs: seq<Chunk>, added: seq<Chunk>, placed: seq<Chunk>, p: Chunk, rest: seq<Chunk>)
    requires multiset(pairs) == multiset(placed) + multiset([p] + rest)
    ensures multiset(pairs + added) == multiset(placed + added + [p]) + multiset(rest)
  {
  }

  lemma BlockCut(xs: seq<Key>, ys: seq<Key>, p: Chunk)
    requires Ascending(xs) && Ascending(ys) && Paired(xs, ys, p)
    ensures CleanCut(xs, ys, p.bStart, p.aStart)
  {
    assert xs[p.bStart..p.bEnd][0] == ys[p.aStart..p.aEnd][0];
    CutAtMatch(xs, ys, p.bStart, p.aStart);
  }

  lemma NextChunk(xs: seq<Key>, ys: seq<Key>, chunks: seq<Chunk>, k: int)
    requires InOrderUpTo(xs, ys, chunks, |xs|, |ys|) && 0 <= k < |chunks|
    ensures Paired(xs, ys, chunks[k]) && chunks[k].bEnd <= |xs| && chunks[k].aEnd <= |ys|
    ensures k + 1 < |chunks| ==> chunks[k].bEnd <= chunks[k + 1].bStart && chunks[k].aEnd <= chunks[k + 1].aStart
    ensures 0 <= chunks[k].bStart <= chunks[k].bEnd && 0 <= chunks[k].aStart <= chunks[k].aEnd
  {
  }

  /** Joins every gap between the matched blocks, the last one included. The
      blocks come first in `pairs`; `placed` is the same chunks in node order. */
  method JoinGaps(before: Snapshot, after: Snapshot, matched: seq<Chunk>)
    returns (pairs: seq<Chunk>, deletedBefore: seq<int>, insertedAfter: seq<int>, ghost placed: seq<Chunk>)
    requires Ascending(before.keys) && Ascending(after.keys)
    requires InOrderUpTo(before.keys, after.keys, matched, |before.keys|, |after.keys|)
    ensures multiset(pairs) == multiset(placed)
    ensures PlacedUpTo(before.keys, after.keys, placed, deletedBefore, insertedAfter, |before.keys|, |after.keys|)
  {
    hide PlacedUpTo, Ascending, InOrderUpTo, CleanCut, Paired;
    var xs, ys := before.keys, after.keys;
    ghost var added: seq<Chunk>;
    pairs, deletedBefore, insertedAfter, placed := matched, [], [], [];
    var prevB, prevA := 0, 0;
    StartPlaced(xs, ys);
    if matched != [] {
      NextChunk(xs, ys, matched, 0);
    }
    assert matched[0..] == matched;
    for k := 0 to |matched|
      invariant PlacedUpTo(xs, ys, placed, deletedBefore, insertedAfter, prevB, prevA)
      invariant multiset(pairs) == multiset(placed) + multiset(matched[k..])
      invariant k < |matched| ==> prevB <= matched[k].bStart && prevA <= matched[k].aStart
      invariant prevB <= |xs| && prevA <= |ys|
    {
      var p := matched[k];
      NextChunk(xs, ys, matched, k);
      BlockCut(xs, ys, p);
      ghost var pairs0 := pairs;
      pairs, deletedBefore, insertedAfter, added := MergeGap(before, after, prevB, p.bStart, prevA, p.aStart, pairs,
                                                             deletedBefore, insertedAfter, placed);
      PlaceMatch(xs, ys, placed + added, deletedBefore, insertedAfter, p);
      assert matched[k..] == [p] + matched[k + 1..];
      Regroup(pairs0, added, placed, p, matched[k + 1..]);
      placed := placed + added + [p];
      prevB, prevA := p.bEnd, p.aEnd;
    }
    EndCut(xs, ys);
    assert matched[|matched|..] == [];
    pairs, deletedBefore, insertedAfter, added := MergeGap(before, after, prevB, |xs|, prevA, |ys|, pairs,
                                                           deletedBefore, insertedAfter, placed);
    placed := placed + added;
  }

  /** Skipping blocks by digest and joining the gaps is the full alignment. */
  method AlignByDigest(before: Snapshot, after: Snapshot)
    returns (runs: seq<Run>, deletedBefore: seq<int>, insertedAfter: seq<int>)
    requires Ascending(before.keys) && Ascending(after.keys)
    requires |before.blockStarts| == |before.blockDigests| && |after.blockStarts| == |after.blockDigests|
    requires PartitionStarts(before.blockStarts, before.NodeCount())
    requires PartitionStarts(after.blockStarts, after.NodeCount())
    requires DigestsHonest(before, after)
    ensures IsAlignment(before.keys, after.keys, runs, deletedBefore, insertedAfter)
  {
    var xs, ys := before.keys, after.keys;
    var matched := MatchBlocks(before, after);
    var pairs;
    ghost var placed;
    pairs, deletedBefore, insertedAfter, placed := JoinGaps(before, after, matched);
    hide *;
    PlacedEnd(xs, ys, placed, deletedBefore, insertedAfter);
    SortRestoresOrder(xs, ys, pairs, placed, |xs|, |ys|);
    pairs := Sort(ByBStart, pairs);
    runs := MergeAdjacent(pairs, xs, ys);
    AlignmentFrom(xs, ys, placed, deletedBefore, insertedAfter);
  }

  lemma AlignmentFrom(xs: seq<Key>, ys: seq<Key>, placed: seq<Chunk>, deleted: seq<int>, inserted: seq<int>)
    requires Flatten(placed) == MatchesUpTo(xs, ys, |xs|)
    requires deleted == AbsentUpTo(xs, ys, |xs|) && inserted == AbsentUpTo(ys, xs, |ys|)
    ensures IsAlignment(xs, ys, Coalesce(Flatten(placed)), deleted, inserted)
  {
  }

  lemma StartPlaced(xs: seq<Key>, ys: seq<Key>)
    ensures PlacedUpTo(xs, ys, [], [], [], 0, 0)
  {
  }

  lemma EndCut(xs: seq<Key>, ys: seq<Key>)
    ensures CleanCut(xs, ys, |xs|, |ys|)
  {
  }

  lemma PlacedEnd(xs: seq<Key>, ys: seq<Key>, chunks: seq<Chunk>, deleted: seq<int>, inserted: seq<int>)
    requires PlacedUpTo(xs, ys, chunks, deleted, inserted, |xs|, |ys|)
    ensures InOrderUpTo(xs, ys, chunks, |xs|, |ys|) && Flatten(chunks) == MatchesUpTo(xs, ys, |xs|)
    ensures deleted == AbsentUpTo(xs, ys, |xs|) && inserted == AbsentUpTo(ys, xs, |ys|)
  {
  }

  /** A snapshot without blocks is empty, unless neither snapshot has blocks. */
  predicate BlocksAgree(before: Snapshot, after: Snapshot) {
    || before.blockStarts == after.blockStarts == []
    || ((before.blockStarts == [] ==> before.keys == []) && (after.blockStarts == [] ==> after.keys == []))
  }

  function OneNode(starts: seq<int>, digests: seq<int>): Snapshot {
    Snapshot([Key([], [97])], 8, [0, 0, 0, 0, 0, 0, 0, 0], None, [[]], [0], [[]], [[]], [map[]], [false], [false],
             starts, digests)
  }

  /** One node on either side, and a block on one side only: inputs the alignment
      gets wrong. */
  lemma MissingBlocksDisagree()
    ensures var b, a := OneNode([], []), OneNode([0], [7]);
      b.WellFormed() && a.WellFormed() && DigestsHonest(b, a) && !BlocksAgree(b, a)
  {
    OneNodeIsWellFormed([], []);
    OneNodeIsWellFormed([0], [7]);
  }

  lemma OneNodeIsWellFormed(starts: seq<int>, digests: seq<int>)
    requires PartitionStarts(starts, 1) && |digests| == |starts|
    ensures OneNode(starts, digests).WellFormed()
  {
    assert JoinLabel(Key([], [97])) == [97];
  }

  method EveryIndex(keys: seq<Key>, ghost others: seq<Key>) returns (indices: seq<int>)
    ensures |indices| == |keys|
    ensures others == [] ==> indices == AbsentUpTo(keys, others, |keys|)
  {
    indices := [];
    for ni := 0 to |keys|
      invariant |indices| == ni
      invariant others == [] ==> indices == AbsentUpTo(keys, others, ni)
    {
      indices := indices + [ni];
    }
  }

  lemma {:induction false} NothingMatches(xs: seq<Key>, ys: seq<Key>, n: nat)
    requires n <= |xs|
    ensures ys == [] ==> MatchesUpTo(xs, ys, n) == []
  {
    if n > 0 {
      NothingMatches(xs, ys, n - 1);
    }
  }

  /** A key sequence that is not empty leaves a trace in every alignment. */
  lemma AlignmentIsNotEmpty(xs: seq<Key>, ys: seq<Key>, runs: seq<Run>, deleted: seq<int>, inserted: seq<int>)
    requires Ascending(ys) && IsAlignment(xs, ys, runs, deleted, inserted)
    ensures xs != [] ==> runs != [] || deleted != []
    ensures ys != [] ==> runs != [] || inserted != []
  {
    AlignmentMeaning(xs, ys, runs, deleted, inserted);
    if xs != [] && xs[0] in ys {
      assert InRuns(runs, 0, IndexOf(ys, xs[0]));
    } else if xs != [] {
      assert 0 in deleted;
    }
    if ys != [] && ys[0] in xs {
      assert InRuns(runs, IndexOf(xs, ys[0]), 0);
    } else if ys != [] {
      assert 0 in inserted;
    }
  }

  /** The entry point, with its special cases for snapshots without blocks. It
      aligns correctly exactly when a missing block column means an empty
      snapshot or is missing on both sides. */
  method AlignSnapshots(before: Snapshot, after: Snapshot)
    returns (runs: seq<Run>, deletedBefore: seq<int>, insertedAfter: seq<int>)
    requires before.WellFormed() && after.WellFormed() && DigestsHonest(before, after)
    ensures IsAlignment(before.keys, after.keys, runs, deletedBefore, insertedAfter) <==> BlocksAgree(before, after)
  {
    hide DigestsHonest, AbsentUpTo, MatchesUpTo;
    var bN, aN := before.NodeCount(), after.NodeCount();
    runs, deletedBefore, insertedAfter := [], [], [];
    JoinStart(before.keys, after.keys);
    if |before.blockStarts| == 0 && |after.blockStarts| == 0 {
      if bN > 0 || aN > 0 {
        runs, deletedBefore, insertedAfter := AlignFallback(before, after);
      } else {
        JoinEnd(before.keys, after.keys, [], [], []);
      }
      return;
    }
    if |before.blockStarts| == 0 {
      insertedAfter := EveryIndex(after.keys, before.keys);
    } else if |after.blockStarts| == 0 {
      NothingMatches(before.keys, after.keys, bN);
      deletedBefore := EveryIndex(before.keys, after.keys);
    } else {
      runs, deletedBefore, insertedAfter := AlignByDigest(before, after);
      return;
    }
    if IsAlignment(before.keys, after.keys, runs, deletedBefore, insertedAfter) {
      AlignmentIsNotEmpty(before.keys, after.keys, runs, deletedBefore, insertedAfter);
    }
  }
}
