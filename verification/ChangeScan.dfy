/** Phase 1 over all runs: after it, every after-node is marked new, changed or
    left alone exactly as its key and hash say. */
module ChangeScan {
  import opened Wrappers
  import opened TargetDiff
  import opened Snapshot
  import opened Align
  import opened HashDiff

  /** The before-node with the key of after-node `i`, or -1. */
  ghost function BeforeOf(before: Snapshot, after: Snapshot, i: int): (b: int)
    requires 0 <= i < after.NodeCount()
    ensures -1 <= b < before.NodeCount()
    ensures b >= 0 ==> before.keys[b] == after.keys[i]
    ensures b == -1 ==> after.keys[i] !in before.keys
  {
    if after.keys[i] in before.keys then IndexOf(before.keys, after.keys[i]) else -1
  }

  lemma BeforeOfKey(before: Snapshot, after: Snapshot, b: int, i: int)
    requires Ascending(before.keys) && 0 <= i < after.NodeCount() && 0 <= b < before.NodeCount()
    ensures before.keys[b] == after.keys[i] <==> BeforeOf(before, after, i) == b
  {
    if before.keys[b] == after.keys[i] {
      IndexOfAscending(before.keys, b);
    }
  }

  /** The runs pair every after-node with its before-node and nothing else. */
  ghost predicate RunsPair(before: Snapshot, after: Snapshot, runs: seq<Run>) {
    && (forall b, i :: InRuns(runs, b, i) <==> 0 <= i < after.NodeCount() && b >= 0 && BeforeOf(before, after, i) == b)
    && (forall r | r in runs :: r.length > 0)
  }

  lemma AlignedRunsPair(before: Snapshot, after: Snapshot, runs: seq<Run>, deleted: seq<int>, inserted: seq<int>)
    requires Ascending(before.keys) && Ascending(after.keys)
    requires IsAlignment(before.keys, after.keys, runs, deleted, inserted)
    ensures RunsPair(before, after, runs)
    ensures forall i :: i in inserted <==> 0 <= i < after.NodeCount() && BeforeOf(before, after, i) == -1
    ensures forall b :: b in deleted <==> 0 <= b < before.NodeCount() && before.keys[b] !in after.keys
  {
    hide IsAlignment;
    AlignmentMeaning(before.keys, after.keys, runs, deleted, inserted);
    forall b, i
      ensures InRuns(runs, b, i) <==> 0 <= i < after.NodeCount() && b >= 0 && BeforeOf(before, after, i) == b
    {
      if 0 <= i < after.NodeCount() && 0 <= b < before.NodeCount() {
        BeforeOfKey(before, after, b, i);
      }
    }
  }

  /** A run stays inside both snapshots and pairs offset by offset. */
  lemma RunFits(before: Snapshot, after: Snapshot, runs: seq<Run>, r: Run)
    requires RunsPair(before, after, runs) && r in runs
    ensures 0 <= r.beforeStart < r.beforeStart + r.length <= before.NodeCount()
    ensures 0 <= r.afterStart < r.afterStart + r.length <= after.NodeCount()
    ensures forall i | r.afterStart <= i < r.afterStart + r.length ::
        BeforeOf(before, after, i) == r.beforeStart + i - r.afterStart
  {
    assert Covers(r, r.beforeStart, r.afterStart) && InRuns(runs, r.beforeStart, r.afterStart);
    var b, a := r.beforeStart + r.length - 1, r.afterStart + r.length - 1;
    assert Covers(r, b, a) && InRuns(runs, b, a);
    forall i | r.afterStart <= i < r.afterStart + r.length
      ensures BeforeOf(before, after, i) == r.beforeStart + i - r.afterStart
    {
      assert Covers(r, r.beforeStart + i - r.afterStart, i) && InRuns(runs, r.beforeStart + i - r.afterStart, i);
    }
  }

  lemma OneMoreRun(runs: seq<Run>, k: int, b: int, i: int)
    requires 0 <= k < |runs|
    ensures InRuns(runs[..k + 1], b, i) <==> InRuns(runs[..k], b, i) || Covers(runs[k], b, i)
  {
    assert runs[..k + 1] == runs[..k] + [runs[k]];
    if InRuns(runs[..k + 1], b, i) {
      var r :| r in runs[..k + 1] && Covers(r, b, i);
      assert r in runs[..k] || r == runs[k];
    }
  }

  // ---- Before-index to after-index ----

  /** `slot` is the after-node paired with `b` by the first runs, or -1. */
  ghost predicate MapsTo(runs: seq<Run>, b: int, slot: int) {
    (slot >= 0 && InRuns(runs, b, slot)) || (slot == -1 && forall i :: !InRuns(runs, b, i))
  }

  method MapRuns(before: Snapshot, after: Snapshot, runs: seq<Run>) returns (beforeToAfter: array<int>)
    requires RunsPair(before, after, runs)
    ensures fresh(beforeToAfter) && beforeToAfter.Length == before.NodeCount()
    ensures forall b | 0 <= b < before.NodeCount() :: MapsTo(runs, b, beforeToAfter[b])
  {
    beforeToAfter := new int[before.NodeCount()](_ => -1);
    for r := 0 to |runs|
      invariant forall b | 0 <= b < before.NodeCount() :: MapsTo(runs[..r], b, beforeToAfter[b])
    {
      var run := runs[r];
      RunFits(before, after, runs, run);
      ghost var prior := beforeToAfter[..];
      hide RunsPair, MapsTo;
      for k := 0 to run.length
        invariant forall b | 0 <= b < before.NodeCount() ::
                    beforeToAfter[b] == if run.beforeStart <= b < run.beforeStart + k
                        then run.afterStart + b - run.beforeStart
                                        else prior[b]
      {
        beforeToAfter[run.beforeStart + k] := run.afterStart + k;
      }
      forall b | 0 <= b < before.NodeCount() ensures MapsTo(runs[..r + 1], b, beforeToAfter[b]) {
        MapOneMore(runs, r, b, prior[b]);
      }
    }
    assert runs[..|runs|] == runs;
  }

  lemma MapOneMore(runs: seq<Run>, k: int, b: int, slot: int)
    requires 0 <= k < |runs| && MapsTo(runs[..k], b, slot) && runs[k].afterStart >= 0
    ensures var r := runs[k];
            MapsTo(runs[..k + 1], b, if r.beforeStart <= b < r.beforeStart + r.length
                then r.afterStart + b - r.beforeStart else slot)
  {
    var r, more := runs[k], runs[..k + 1];
    forall i ensures InRuns(more, b, i) <==> InRuns(runs[..k], b, i) || Covers(r, b, i) {
      OneMoreRun(runs, k, b, i);
    }
    if r.beforeStart <= b < r.beforeStart + r.length {
      assert Covers(r, b, r.afterStart + b - r.beforeStart);
    } else {
      assert forall i :: !Covers(r, b, i);
      if slot >= 0 {
        assert InRuns(more, b, slot);
      }
    }
  }

  // ---- Marking ----

  method MarkInserted(inserted: seq<int>, changedByAfter: array<ChangedNode?>)
    requires forall i | i in inserted :: 0 <= i < changedByAfter.Length
    modifies changedByAfter
    ensures forall i | 0 <= i < changedByAfter.Length ::
      if i in inserted then IsNode(changedByAfter[i], New, i, -1) && fresh(changedByAfter[i]) && !changedByAfter[i].seed
      else changedByAfter[i] == old(changedByAfter[i])
  {
    for k := 0 to |inserted|
      invariant forall i | 0 <= i < changedByAfter.Length ::
        if i in inserted[..k] then IsNode(changedByAfter[i], New, i,
                                          -1) && fresh(changedByAfter[i]) && !changedByAfter[i].seed
        else changedByAfter[i] == old(changedByAfter[i])
    {
      assert inserted[..k + 1] == inserted[..k] + [inserted[k]];
      assert inserted[k] in inserted;
      var node := new ChangedNode(New, inserted[k], -1);
      changedByAfter[inserted[k]] := node;
    }
    assert inserted[..|inserted|] == inserted;
  }

  /** After-node `i` is paired by these runs and its stored hash bytes differ. */
  ghost predicate StrideChanged(before: Snapshot, after: Snapshot, runs: seq<Run>, i: int)
    requires 0 <= i < after.NodeCount()
  {
    var b := BeforeOf(before, after, i);
    b >= 0 && InRuns(runs, b, i) && EntryDiffers(before.hashes, after.hashes, before.stride, b, i)
  }

  ghost predicate StridesMarked(before: Snapshot, after: Snapshot, runs: seq<Run>, prior: seq<ChangedNode?>,
                                marked: seq<ChangedNode?>) {
    && |marked| == |prior| == after.NodeCount()
    && forall i | 0 <= i < |marked| ::
         if StrideChanged(before, after, runs, i) then IsNode(marked[i], Changed, i, BeforeOf(before, after, i))
         else marked[i] == prior[i]
  }

  ghost predicate OnlyNewMarked(before: Snapshot, after: Snapshot, nodes: seq<ChangedNode?>) {
    |nodes| == after.NodeCount() && forall i | 0 <= i < |nodes| :: BeforeOf(before, after, i) >= 0 ==> nodes[i] == null
  }

  lemma MarkOneMore(before: Snapshot, after: Snapshot, runs: seq<Run>, k: int, prior: seq<ChangedNode?>,
                    middle: seq<ChangedNode?>, marked: seq<ChangedNode?>)
    requires RunsPair(before, after, runs) && 0 <= k < |runs| && OnlyNewMarked(before, after, prior)
    requires StridesMarked(before, after, runs[..k], prior, middle)
    requires runs[k].beforeStart >= 0 && runs[k].afterStart >= 0 && runs[k].length >= 0
    requires RunMarked(before.hashes, after.hashes, before.stride, runs[k].beforeStart, runs[k].afterStart,
        runs[k].length, middle, marked)
    ensures StridesMarked(before, after, runs[..k + 1], prior, marked)
  {
    var r := runs[k];
    RunFits(before, after, runs, r);
    hide RunsPair;
    forall i | 0 <= i < after.NodeCount()
      ensures if StrideChanged(before, after, runs[..k + 1], i)
              then IsNode(marked[i], Changed, i, BeforeOf(before, after, i)) else marked[i] == prior[i]
    {
      OneMoreRun(runs, k, BeforeOf(before, after, i), i);
      if r.afterStart <= i < r.afterStart + r.length {
        assert Covers(r, BeforeOf(before, after, i), i);
        assert DiffersInRun(before.hashes, after.hashes, before.stride, r.beforeStart, r.afterStart, r.length, i) <==>
               StrideChanged(before, after, runs[..k + 1], i);
      } else {
        assert !DiffersInRun(before.hashes, after.hashes, before.stride, r.beforeStart, r.afterStart, r.length, i);
        assert !Covers(r, BeforeOf(before, after, i), i);
      }
    }
  }

  method CompareHashes(before: Snapshot, after: Snapshot, runs: seq<Run>, changedByAfter: array<ChangedNode?>)
    requires RunsPair(before, after, runs) && OnlyNewMarked(before, after, changedByAfter[..])
    requires |before.hashes| == before.NodeCount() * before.stride && |after.hashes| == after.NodeCount() * after.stride
    requires before.stride == after.stride
    modifies changedByAfter
    ensures StridesMarked(before, after, runs, old(changedByAfter[..]), changedByAfter[..])
    ensures forall i | 0 <= i < changedByAfter.Length ::
        changedByAfter[i] == old(changedByAfter[i]) || (fresh(changedByAfter[i]) && !changedByAfter[i].seed)
  {
    hide RunsPair, StridesMarked, OnlyNewMarked, RunMarked, Entries;
    ghost var prior := changedByAfter[..];
    MarkedNone(before, after, prior);
    assert runs[..0] == [];
    for r := 0 to |runs|
      invariant StridesMarked(before, after, runs[..r], prior, changedByAfter[..])
      invariant forall i | 0 <= i < changedByAfter.Length ::
          changedByAfter[i] == old(changedByAfter[i]) || (fresh(changedByAfter[i]) && !changedByAfter[i].seed)
    {
      var run := runs[r];
      RunFits(before, after, runs, run);
      MulGrows(run.beforeStart + run.length, before.NodeCount(), before.stride);
      MulGrows(run.afterStart + run.length, after.NodeCount(), after.stride);
      ghost var middle := changedByAfter[..];
      var bSlice := Entries(before.hashes, before.stride, run.beforeStart, run.length);
      var aSlice := Entries(after.hashes, before.stride, run.afterStart, run.length);
      if bSlice != aSlice {
        assert changedByAfter.Length == after.NodeCount() by {
          MarkedLength(before, after, runs[..r], prior, middle);
        }
        ghost var calls := BisectHashRun(before.hashes, after.hashes, before.stride, run.beforeStart, run.afterStart,
                                         run.length, changedByAfter);
      } else {
        EqualSlices(before.hashes, after.hashes, before.stride, run.beforeStart, run.afterStart, run.length);
        UnmarkedRun(before.hashes, after.hashes, before.stride, run.beforeStart, run.afterStart, run.length, middle);
      }
      MarkOneMore(before, after, runs, r, prior, middle, changedByAfter[..]);
    }
    assert runs[..|runs|] == runs;
  }

  lemma MarkedNone(before: Snapshot, after: Snapshot, prior: seq<ChangedNode?>)
    requires OnlyNewMarked(before, after, prior)
    ensures StridesMarked(before, after, [], prior, prior)
  {
  }

  lemma MarkedLength(before: Snapshot, after: Snapshot, runs: seq<Run>, prior: seq<ChangedNode?>,
                     marked: seq<ChangedNode?>)
    requires StridesMarked(before, after, runs, prior, marked)
    ensures |marked| == after.NodeCount()
  {
  }

  // ---- The empty-hash sentinel ----

  /** After-node `i` is paired by these runs and only one side is a sentinel. */
  ghost predicate SentinelChanged(before: Snapshot, after: Snapshot, runs: seq<Run>, i: int)
    requires 0 <= i < after.NodeCount()
  {
    var b := BeforeOf(before, after, i);
    b >= 0 && InRuns(runs, b, i) && before.HashEmpty(b) != after.HashEmpty(i)
  }

  ghost predicate SentinelsMarked(before: Snapshot, after: Snapshot, runs: seq<Run>, prior: seq<ChangedNode?>,
                                  marked: seq<ChangedNode?>) {
    && |marked| == |prior| == after.NodeCount()
    && forall i | 0 <= i < |marked| ::
         if prior[i] == null && SentinelChanged(before, after, runs, i)
             then IsNode(marked[i], Changed, i, BeforeOf(before, after, i))
         else marked[i] == prior[i]
  }

  method CompareSentinels(before: Snapshot, after: Snapshot, runs: seq<Run>, changedByAfter: array<ChangedNode?>)
    requires RunsPair(before, after, runs) && changedByAfter.Length == after.NodeCount()
    modifies changedByAfter
    ensures SentinelsMarked(before, after, runs, old(changedByAfter[..]), changedByAfter[..])
    ensures forall i | 0 <= i < changedByAfter.Length ::
        changedByAfter[i] == old(changedByAfter[i]) || (fresh(changedByAfter[i]) && !changedByAfter[i].seed)
  {
    if before.emptyBits.None? && after.emptyBits.None? {
      return;
    }
    ghost var prior := changedByAfter[..];
    for r := 0 to |runs|
      invariant SentinelsMarked(before, after, runs[..r], prior, changedByAfter[..])
      invariant forall i | 0 <= i < changedByAfter.Length ::
          changedByAfter[i] == old(changedByAfter[i]) || (fresh(changedByAfter[i]) && !changedByAfter[i].seed)
    {
      var run := runs[r];
      RunFits(before, after, runs, run);
      hide RunsPair, SentinelsMarked;
      ghost var middle := changedByAfter[..];
      for k := 0 to run.length
        invariant forall i | 0 <= i < changedByAfter.Length ::
            changedByAfter[i] == old(changedByAfter[i]) || (fresh(changedByAfter[i]) && !changedByAfter[i].seed)
        invariant forall i | 0 <= i < changedByAfter.Length ::
          if run.afterStart <= i < run.afterStart + k && middle[i] == null &&
             before.HashEmpty(run.beforeStart + i - run.afterStart) != after.HashEmpty(i)
          then IsNode(changedByAfter[i], Changed, i,
                      run.beforeStart + i - run.afterStart) else changedByAfter[i] == middle[i]
      {
        var ai := run.afterStart + k;
        if changedByAfter[ai] != null {
          continue;
        }
        if before.HashEmpty(run.beforeStart + k) != after.HashEmpty(ai) {
          var node := new ChangedNode(Changed, ai, run.beforeStart + k);
          changedByAfter[ai] := node;
        }
      }
      SentinelsOneMore(before, after, runs, r, prior, middle, changedByAfter[..]);
    }
    assert runs[..|runs|] == runs;
  }

  lemma SentinelsOneMore(before: Snapshot, after: Snapshot, runs: seq<Run>, k: int, prior: seq<ChangedNode?>,
                         middle: seq<ChangedNode?>, marked: seq<ChangedNode?>)
    requires RunsPair(before, after, runs) && 0 <= k < |runs|
    requires SentinelsMarked(before, after, runs[..k], prior, middle) && |marked| == |middle|
    requires 0 <= runs[k].beforeStart && 0 <= runs[k].afterStart
    requires forall i | 0 <= i < |marked| ::
      if runs[k].afterStart <= i < runs[k].afterStart + runs[k].length && middle[i] == null &&
         before.HashEmpty(runs[k].beforeStart + i - runs[k].afterStart) != after.HashEmpty(i)
      then IsNode(marked[i], Changed, i, runs[k].beforeStart + i - runs[k].afterStart) else marked[i] == middle[i]
    ensures SentinelsMarked(before, after, runs[..k + 1], prior, marked)
  {
    var r := runs[k];
    RunFits(before, after, runs, r);
    hide RunsPair;
    forall i | 0 <= i < after.NodeCount()
      ensures if prior[i] == null && SentinelChanged(before, after, runs[..k + 1], i)
              then IsNode(marked[i], Changed, i, BeforeOf(before, after, i)) else marked[i] == prior[i]
    {
      OneMoreRun(runs, k, BeforeOf(before, after, i), i);
      if r.afterStart <= i < r.afterStart + r.length {
        assert Covers(r, BeforeOf(before, after, i), i);
      } else {
        assert !Covers(r, BeforeOf(before, after, i), i);
      }
    }
  }

  // ---- What marking means ----

  /** Slot `i` is empty for an unchanged node and otherwise says what changed. */
  ghost predicate SlotFor(before: Snapshot, after: Snapshot, i: int, slot: ChangedNode?)
    requires 0 <= i < after.NodeCount() && |before.hashes| == before.NodeCount() * before.stride
    requires |after.hashes| == after.NodeCount() * after.stride
  {
    var b := BeforeOf(before, after, i);
    if b == -1 then IsNode(slot, New, i, -1)
    else if before.Hash(b) != after.Hash(i) then IsNode(slot, Changed, i, b)
    else slot == null
  }

  ghost predicate Scanned(before: Snapshot, after: Snapshot, slots: seq<ChangedNode?>)
    requires |before.hashes| == before.NodeCount() * before.stride && |after.hashes| == after.NodeCount() * after.stride
  {
    |slots| == after.NodeCount() && forall i | 0 <= i < |slots| :: SlotFor(before, after, i, slots[i])
  }

  /** Stored bytes and sentinel bits together decide exactly as the hash texts. */
  lemma HashTextsDiffer(before: Snapshot, after: Snapshot, b: nat, i: nat)
    requires before.WellFormed() && after.WellFormed() && before.stride == after.stride
    requires b < before.NodeCount() && i < after.NodeCount()
    ensures before.Hash(b) != after.Hash(i) <==>
            EntryDiffers(before.hashes, after.hashes, before.stride, b, i) || before.HashEmpty(b) != after.HashEmpty(i)
  {
    MulGrows(b + 1, before.NodeCount(), before.stride);
    MulGrows(i + 1, after.NodeCount(), after.stride);
    var x, y := before.Stride(b), after.Stride(i);
    assert x == Entries(before.hashes, before.stride, b, 1) && y == Entries(after.hashes, after.stride, i, 1);
    assert |x| == before.stride == |y| by {
      EntriesSplit(before.hashes, before.stride, b, 1, 0);
      EntriesSplit(after.hashes, after.stride, i, 1, 0);
    }
    if before.HashEmpty(b) && after.HashEmpty(i) {
      assert forall k | 0 <= k < |x| :: x[k] in x && y[k] in y;
      assert x == y;
    } else if !before.HashEmpty(b) && !after.HashEmpty(i) && HexEncode(x) == HexEncode(y) {
      HexEncodeInjective(x, y);
    }
  }

  lemma MarksMean(before: Snapshot, after: Snapshot, runs: seq<Run>, inserted: seq<ChangedNode?>,
                  hashed: seq<ChangedNode?>, marked: seq<ChangedNode?>)
    requires before.WellFormed() && after.WellFormed() && before.stride == after.stride
    requires RunsPair(before, after, runs)
    requires |inserted| == after.NodeCount() && forall i | 0 <= i < |inserted| ::
      if BeforeOf(before, after, i) == -1 then IsNode(inserted[i], New, i, -1) else inserted[i] == null
    requires StridesMarked(before, after, runs, inserted, hashed)
    requires SentinelsMarked(before, after, runs, hashed, marked)
    ensures Scanned(before, after, marked)
  {
    forall i | 0 <= i < after.NodeCount() ensures SlotFor(before, after, i, marked[i]) {
      var b := BeforeOf(before, after, i);
      if b >= 0 {
        assert InRuns(runs, b, i);
        HashTextsDiffer(before, after, b, i);
      }
    }
  }
}
