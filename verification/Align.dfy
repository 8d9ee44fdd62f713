/** Phase 0: pairing the nodes of two snapshots by key, once by a full
    merge-join and once by skipping the blocks whose digests agree. Both are
    proved against one definition that scans for keys without any merging. */
module Align {
  import opened Wrappers
  import opened ByteStrings
  import opened Snapshot

  /** A run of nodes with the same keys at the same relative offsets. */
  datatype Run = Run(beforeStart: int, afterStart: int, length: int)

  // ---- What alignment means ----

  ghost function IndexOf(keys: seq<Key>, k: Key): (i: int)
    requires k in keys
    ensures 0 <= i < |keys| && keys[i] == k
  {
    var i :| 0 <= i < |keys| && keys[i] == k;
    i
  }

  lemma IndexOfAscending(keys: seq<Key>, i: int)
    requires Ascending(keys) && 0 <= i < |keys|
    ensures IndexOf(keys, keys[i]) == i
  {
    KeyLessIrreflexive(keys[i]);
  }

  /** The pairs (i, j) with `xs[i] == ys[j]` and `i < n`, ascending. */
  ghost function MatchesUpTo(xs: seq<Key>, ys: seq<Key>, n: nat): seq<(int, int)>
    requires n <= |xs|
  {
    if n == 0 then []
    else MatchesUpTo(xs, ys, n - 1) + (if xs[n - 1] in ys then [(n - 1, IndexOf(ys, xs[n - 1]))] else [])
  }

  /** The indices below `n` whose key `ys` lacks, ascending. */
  ghost function AbsentUpTo(xs: seq<Key>, ys: seq<Key>, n: nat): seq<int>
    requires n <= |xs|
  {
    if n == 0 then []
    else AbsentUpTo(xs, ys, n - 1) + (if xs[n - 1] in ys then [] else [n - 1])
  }

  /** The last run ends exactly where (i, j) begins. */
  predicate Continues(runs: seq<Run>, i: int, j: int) {
    runs != [] && runs[|runs| - 1].beforeStart + runs[|runs| - 1].length == i &&
    runs[|runs| - 1].afterStart + runs[|runs| - 1].length == j
  }

  /** `runs` followed by `n` pairs from (i, j) on: the last run grows when they
      continue it, otherwise a new run starts. */
  function Grown(runs: seq<Run>, i: int, j: int, n: int): seq<Run> {
    if Continues(runs, i, j) then
      var last := runs[|runs| - 1];
      runs[..|runs| - 1] + [last.(length := last.length + n)]
    else
      runs + [Run(i, j, n)]
  }

  lemma GrownTwice(runs: seq<Run>, i: int, j: int, n: int, m: int)
    ensures Grown(Grown(runs, i, j, n), i + n, j + n, m) == Grown(runs, i, j, n + m)
  {
    var once := Grown(runs, i, j, n);
    assert Continues(once, i + n, j + n);
    if Continues(runs, i, j) {
      assert once[..|once| - 1] == runs[..|runs| - 1];
    } else {
      assert once[..|once| - 1] == runs;
    }
  }

  /** Pairs grouped into maximal runs. */
  function Coalesce(pairs: seq<(int, int)>): seq<Run> {
    if pairs == [] then []
    else Grown(Coalesce(pairs[..|pairs| - 1]), pairs[|pairs| - 1].0, pairs[|pairs| - 1].1, 1)
  }

  lemma CoalesceSnoc(pairs: seq<(int, int)>, i: int, j: int)
    ensures Coalesce(pairs + [(i, j)]) == Grown(Coalesce(pairs), i, j, 1)
  {
    assert (pairs + [(i, j)])[..|pairs|] == pairs;
  }

  /** The alignment of two key sequences. */
  ghost predicate IsAlignment(xs: seq<Key>, ys: seq<Key>, runs: seq<Run>, deleted: seq<int>, inserted: seq<int>) {
    && runs == Coalesce(MatchesUpTo(xs, ys, |xs|))
    && deleted == AbsentUpTo(xs, ys, |xs|)
    && inserted == AbsentUpTo(ys, xs, |ys|)
  }

  // ---- What an alignment tells its user ----

  lemma {:induction false} MatchesAt(xs: seq<Key>, ys: seq<Key>, n: nat, i: int, j: int)
    requires n <= |xs| && Ascending(ys)
    ensures (i, j) in MatchesUpTo(xs, ys, n) <==> 0 <= i < n && 0 <= j < |ys| && xs[i] == ys[j]
  {
    if n > 0 {
      MatchesAt(xs, ys, n - 1, i, j);
      if i == n - 1 && 0 <= j < |ys| && xs[i] == ys[j] {
        IndexOfAscending(ys, j);
      }
    }
  }

  lemma {:induction false} AbsentAt(xs: seq<Key>, ys: seq<Key>, n: nat, i: int)
    requires n <= |xs|
    ensures i in AbsentUpTo(xs, ys, n) <==> 0 <= i < n && xs[i] !in ys
  {
    if n > 0 {
      AbsentAt(xs, ys, n - 1, i);
    }
  }

  ghost predicate Covers(run: Run, i: int, j: int) {
    run.beforeStart <= i < run.beforeStart + run.length && j - run.afterStart == i - run.beforeStart
  }

  ghost predicate InRuns(runs: seq<Run>, i: int, j: int) {
    exists r :: r in runs && Covers(r, i, j)
  }

  /** Grouping loses no pair and invents none. */
  lemma {:induction false} CoalesceCovers(pairs: seq<(int, int)>, i: int, j: int)
    ensures (i, j) in pairs <==> InRuns(Coalesce(pairs), i, j)
    ensures forall r | r in Coalesce(pairs) :: r.length > 0
  {
    if pairs != [] {
      var front, last := pairs[..|pairs| - 1], pairs[|pairs| - 1];
      CoalesceCovers(front, i, j);
      assert pairs == front + [last];
      var runs := Coalesce(front);
      if Continues(runs, last.0, last.1) {
        var prior := runs[|runs| - 1];
        assert runs == runs[..|runs| - 1] + [prior];
        assert Coalesce(pairs) == runs[..|runs| - 1] + [prior.(length := prior.length + 1)];
        assert Covers(prior.(length := prior.length + 1), i, j) <==> Covers(prior, i, j) || (i, j) == last;
      } else {
        assert Covers(Run(last.0, last.1, 1), i, j) <==> (i, j) == last;
      }
    }
  }

  /** Runs pair exactly the indices whose keys agree, and the two lists hold
      exactly the indices without a partner. */
  lemma AlignmentMeaning(xs: seq<Key>, ys: seq<Key>, runs: seq<Run>, deleted: seq<int>, inserted: seq<int>)
    requires Ascending(ys) && IsAlignment(xs, ys, runs, deleted, inserted)
    ensures forall i, j :: InRuns(runs, i, j) <==> 0 <= i < |xs| && 0 <= j < |ys| && xs[i] == ys[j]
    ensures forall r | r in runs :: r.length > 0
    ensures forall i :: i in deleted <==> 0 <= i < |xs| && xs[i] !in ys
    ensures forall j :: j in inserted <==> 0 <= j < |ys| && ys[j] !in xs
  {
    forall i, j
      ensures InRuns(runs, i, j) <==> 0 <= i < |xs| && 0 <= j < |ys| && xs[i] == ys[j]
    {
      CoalesceCovers(MatchesUpTo(xs, ys, |xs|), i, j);
      MatchesAt(xs, ys, |xs|, i, j);
    }
    CoalesceCovers(MatchesUpTo(xs, ys, |xs|), 0, 0);
    forall i ensures i in deleted <==> 0 <= i < |xs| && xs[i] !in ys {
      AbsentAt(xs, ys, |xs|, i);
    }
    forall j ensures j in inserted <==> 0 <= j < |ys| && ys[j] !in xs {
      AbsentAt(ys, xs, |ys|, j);
    }
  }

  // ---- Cutting both sequences at the same key ----

  /** Everything left of the cut sorts below everything right of it, on either
      side. */
  ghost predicate CleanCut(xs: seq<Key>, ys: seq<Key>, i: int, j: int) {
    && 0 <= i <= |xs| && 0 <= j <= |ys|
    && (forall a, b | 0 <= a < i && j <= b < |ys| :: KeyLess(xs[a], ys[b]))
    && (forall a, b | i <= a < |xs| && 0 <= b < j :: KeyLess(ys[b], xs[a]))
  }

  lemma CutAtMatch(xs: seq<Key>, ys: seq<Key>, i: int, j: int)
    requires Ascending(xs) && Ascending(ys)
    requires 0 <= i < |xs| && 0 <= j < |ys| && xs[i] == ys[j]
    ensures CleanCut(xs, ys, i, j) && CleanCut(xs, ys, i + 1, j + 1)
  {
    forall a, b | 0 <= a <= i && j <= b < |ys| && (a < i || b > j) ensures KeyLess(xs[a], ys[b]) {
      if a < i && b > j {
        KeyLessTransitive(xs[a], xs[i], ys[b]);
      }
    }
    forall a, b | i <= a < |xs| && 0 <= b <= j && (a > i || b < j) ensures KeyLess(ys[b], xs[a]) {
      if a > i && b < j {
        KeyLessTransitive(ys[b], ys[j], xs[a]);
      }
    }
  }

  lemma CutPastSmaller(xs: seq<Key>, ys: seq<Key>, i: int, j: int)
    requires Ascending(xs) && Ascending(ys) && CleanCut(xs, ys, i, j)
    requires i < |xs| && (j < |ys| ==> KeyLess(xs[i], ys[j]))
    ensures CleanCut(xs, ys, i + 1, j) && xs[i] !in ys
  {
    forall b | j <= b < |ys| ensures KeyLess(xs[i], ys[b]) {
      if b > j {
        KeyLessTransitive(xs[i], ys[j], ys[b]);
      }
    }
    forall b | 0 <= b < |ys| ensures xs[i] != ys[b] {
      KeyLessIrreflexive(xs[i]);
    }
  }

  lemma CutMirrored(xs: seq<Key>, ys: seq<Key>, i: int, j: int)
    ensures CleanCut(xs, ys, i, j) <==> CleanCut(ys, xs, j, i)
  {
  }

  // ---- The full merge-join, one step at a time ----

  lemma StepMatch(xs: seq<Key>, ys: seq<Key>, i: int, j: int)
    requires Ascending(xs) && Ascending(ys)
    requires 0 <= i < |xs| && 0 <= j < |ys| && xs[i] == ys[j]
    ensures CleanCut(xs, ys, i + 1, j + 1)
    ensures MatchesUpTo(xs, ys, i + 1) == MatchesUpTo(xs, ys, i) + [(i, j)]
    ensures AbsentUpTo(xs, ys, i + 1) == AbsentUpTo(xs, ys, i)
    ensures AbsentUpTo(ys, xs, j + 1) == AbsentUpTo(ys, xs, j)
  {
    CutAtMatch(xs, ys, i, j);
    IndexOfAscending(ys, j);
  }

  lemma StepDeleted(xs: seq<Key>, ys: seq<Key>, i: int, j: int)
    requires Ascending(xs) && Ascending(ys) && CleanCut(xs, ys, i, j)
    requires 0 <= i < |xs| && (j < |ys| ==> KeyLess(xs[i], ys[j]))
    ensures CleanCut(xs, ys, i + 1, j)
    ensures MatchesUpTo(xs, ys, i + 1) == MatchesUpTo(xs, ys, i)
    ensures AbsentUpTo(xs, ys, i + 1) == AbsentUpTo(xs, ys, i) + [i]
  {
    CutPastSmaller(xs, ys, i, j);
    assert MatchesUpTo(xs, ys, i) + [] == MatchesUpTo(xs, ys, i);
  }

  lemma StepInserted(xs: seq<Key>, ys: seq<Key>, i: int, j: int)
    requires Ascending(xs) && Ascending(ys) && CleanCut(xs, ys, i, j)
    requires 0 <= i <= |xs| && 0 <= j < |ys| && (i < |xs| ==> xs[i] != ys[j] && !KeyLess(xs[i], ys[j]))
    ensures CleanCut(xs, ys, i, j + 1)
    ensures AbsentUpTo(ys, xs, j + 1) == AbsentUpTo(ys, xs, j) + [j]
  {
    if i < |xs| {
      KeyLessTotal(xs[i], ys[j]);
    }
    CutMirrored(xs, ys, i, j);
    CutPastSmaller(ys, xs, j, i);
    CutMirrored(xs, ys, i, j + 1);
  }

  /** The merge-join has placed everything left of the cut (i, j). */
  ghost predicate Joined(xs: seq<Key>, ys: seq<Key>, runs: seq<Run>, deleted: seq<int>, inserted: seq<int>, i: int,
                         j: int) {
    && CleanCut(xs, ys, i, j)
    && runs == Coalesce(MatchesUpTo(xs, ys, i))
    && deleted == AbsentUpTo(xs, ys, i)
    && inserted == AbsentUpTo(ys, xs, j)
  }

  lemma JoinMatch(xs: seq<Key>, ys: seq<Key>, runs: seq<Run>, deleted: seq<int>, inserted: seq<int>, i: int, j: int)
    requires Ascending(xs) && Ascending(ys) && Joined(xs, ys, runs, deleted, inserted, i, j)
    requires i < |xs| && j < |ys| && xs[i] == ys[j]
    ensures Joined(xs, ys, Grown(runs, i, j, 1), deleted, inserted, i + 1, j + 1)
  {
    hide Grown;
    StepMatch(xs, ys, i, j);
    CoalesceSnoc(MatchesUpTo(xs, ys, i), i, j);
  }

  lemma JoinDeleted(xs: seq<Key>, ys: seq<Key>, runs: seq<Run>, deleted: seq<int>, inserted: seq<int>, i: int, j: int)
    requires Ascending(xs) && Ascending(ys) && Joined(xs, ys, runs, deleted, inserted, i, j)
    requires i < |xs| && (j < |ys| ==> KeyLess(xs[i], ys[j]))
    ensures Joined(xs, ys, runs, deleted + [i], inserted, i + 1, j)
  {
    StepDeleted(xs, ys, i, j);
  }

  lemma JoinInserted(xs: seq<Key>, ys: seq<Key>, runs: seq<Run>, deleted: seq<int>, inserted: seq<int>, i: int, j: int)
    requires Ascending(xs) && Ascending(ys) && Joined(xs, ys, runs, deleted, inserted, i, j)
    requires j < |ys| && (i < |xs| ==> xs[i] != ys[j] && !KeyLess(xs[i], ys[j]))
    ensures Joined(xs, ys, runs, deleted, inserted + [j], i, j + 1)
  {
    StepInserted(xs, ys, i, j);
  }

  lemma JoinStart(xs: seq<Key>, ys: seq<Key>)
    ensures Joined(xs, ys, [], [], [], 0, 0)
  {
  }

  lemma JoinEnd(xs: seq<Key>, ys: seq<Key>, runs: seq<Run>, deleted: seq<int>, inserted: seq<int>)
    requires Joined(xs, ys, runs, deleted, inserted, |xs|, |ys|)
    ensures IsAlignment(xs, ys, runs, deleted, inserted)
  {
  }

  method AlignFallback(before: Snapshot, after: Snapshot)
    returns (runs: seq<Run>, deletedBefore: seq<int>, insertedAfter: seq<int>)
    requires Ascending(before.keys) && Ascending(after.keys)
    ensures IsAlignment(before.keys, after.keys, runs, deletedBefore, insertedAfter)
  {
    hide Joined, Ascending, IsAlignment;
    var xs, ys := before.keys, after.keys;
    runs, deletedBefore, insertedAfter := [], [], [];
    var bi, ai := 0, 0;
    JoinStart(xs, ys);
    while bi < |xs| && ai < |ys|
      invariant 0 <= bi <= |xs| && 0 <= ai <= |ys|
      invariant Joined(xs, ys, runs, deletedBefore, insertedAfter, bi, ai)
      decreases |xs| - bi + |ys| - ai
    {
      if xs[bi] == ys[ai] {
        JoinMatch(xs, ys, runs, deletedBefore, insertedAfter, bi, ai);
        if Continues(runs, bi, ai) {
          var last := runs[|runs| - 1];
          runs := runs[..|runs| - 1] + [last.(length := last.length + 1)];
        } else {
          runs := runs + [Run(bi, ai, 1)];
        }
        bi, ai := bi + 1, ai + 1;
      } else if KeyLess(xs[bi], ys[ai]) {
        JoinDeleted(xs, ys, runs, deletedBefore, insertedAfter, bi, ai);
        deletedBefore := deletedBefore + [bi];
        bi := bi + 1;
      } else {
        JoinInserted(xs, ys, runs, deletedBefore, insertedAfter, bi, ai);
        insertedAfter := insertedAfter + [ai];
        ai := ai + 1;
      }
    }
    while bi < |xs|
      invariant 0 <= bi <= |xs| && 0 <= ai <= |ys| && (bi < |xs| ==> ai == |ys|)
      invariant Joined(xs, ys, runs, deletedBefore, insertedAfter, bi, ai)
    {
      JoinDeleted(xs, ys, runs, deletedBefore, insertedAfter, bi, ai);
      deletedBefore := deletedBefore + [bi];
      bi := bi + 1;
    }
    while ai < |ys|
      invariant 0 <= ai <= |ys|
      invariant Joined(xs, ys, runs, deletedBefore, insertedAfter, bi, ai)
    {
      JoinInserted(xs, ys, runs, deletedBefore, insertedAfter, bi, ai);
      insertedAfter := insertedAfter + [ai];
      ai := ai + 1;
    }
    JoinEnd(xs, ys, runs, deletedBefore, insertedAfter);
  }
}
