/** Phase 3a: the reverse adjacency in compressed rows, by counting, prefix
    sums and scattering. */
module ReverseCsr {
  import opened Totals

  /** Row `i` of the compressed rows (off, tgt). */
  ghost predicate RowIs(off: seq<int>, tgt: seq<int>, i: nat, row: seq<int>) {
    i + 1 < |off| && 0 <= off[i] <= off[i + 1] <= |tgt| && tgt[off[i]..off[i + 1]] == row
  }

  /** `off` and `tgt` list the dependency rows of `deps` end to end. */
  ghost predicate IsCsr(off: seq<int>, tgt: seq<int>, deps: seq<seq<int>>) {
    && |off| == |deps| + 1 && off[0] == 0 && off[|deps|] == |tgt|
    && (forall i | 0 <= i < |deps| :: RowIs(off, tgt, i, deps[i]))
  }

  /** The occurrences of `d` among the first `k` entries of a row, each written
      as the row's own index. */
  function RowSources(row: seq<int>, i: int, d: int, k: nat): seq<int>
    requires k <= |row|
  {
    if k == 0 then [] else RowSources(row, i, d, k - 1) + (if row[k - 1] == d then [i] else [])
  }

  /** The nodes among the first `n` that depend on `d`, ascending, one entry an
      edge. */
  function Sources(deps: seq<seq<int>>, d: int, n: nat): seq<int>
    requires n <= |deps|
  {
    if n == 0 then [] else Sources(deps, d, n - 1) + RowSources(deps[n - 1], n - 1, d, |deps[n - 1]|)
  }

  /** Sources after `n` whole rows and `k` entries of the next. */
  function SourcesAt(deps: seq<seq<int>>, d: int, n: nat, k: nat): seq<int>
    requires n <= |deps| && (if n < |deps| then k <= |deps[n]| else k == 0)
  {
    Sources(deps, d, n) + (if n < |deps| then RowSources(deps[n], n, d, k) else [])
  }

  lemma {:induction false} RowSourcesMember(row: seq<int>, i: int, d: int, k: nat, s: int)
    requires k <= |row|
    ensures s in RowSources(row, i, d, k) <==> s == i && d in row[..k]
  {
    if k > 0 {
      RowSourcesMember(row, i, d, k - 1, s);
      assert row[..k] == row[..k - 1] + [row[k - 1]];
    }
  }

  /** The transpose: `s` is listed under `d` exactly when `s` depends on `d`. */
  lemma {:induction false} SourcesMember(deps: seq<seq<int>>, d: int, n: nat, s: int)
    requires n <= |deps|
    ensures s in Sources(deps, d, n) <==> 0 <= s < n && d in deps[s]
  {
    if n > 0 {
      SourcesMember(deps, d, n - 1, s);
      RowSourcesMember(deps[n - 1], n - 1, d, |deps[n - 1]|, s);
      assert deps[n - 1][..|deps[n - 1]|] == deps[n - 1];
    }
  }

  // ---- Pass 1: counting ----

  lemma {:induction false} RowCount(row: seq<int>, i: int, d: int, k: nat)
    requires k <= |row|
    ensures |RowSources(row, i, d, k)| == multiset(row[..k])[d]
  {
    if k > 0 {
      RowCount(row, i, d, k - 1);
      assert row[..k] == row[..k - 1] + [row[k - 1]];
    }
  }

  lemma {:induction false} TotalCount(off: seq<int>, tgt: seq<int>, deps: seq<seq<int>>, d: int, n: nat)
    requires IsCsr(off, tgt, deps) && n <= |deps|
    ensures 0 <= off[n] <= |tgt| && |Sources(deps, d, n)| == multiset(tgt[..off[n]])[d]
  {
    hide IsCsr, Sources, RowSources;
    StartsAtZero(off, tgt, deps, d);
    if n > 0 {
      TotalCount(off, tgt, deps, d, n - 1);
      RowOf(off, tgt, deps, n - 1);
      SourcesOneMore(deps, d, n - 1);
      var front, row := tgt[..off[n - 1]], tgt[off[n - 1]..off[n]];
      assert row[..|row|] == row;
      RowCount(row, n - 1, d, |row|);
      assert tgt[..off[n]] == front + row;
    }
  }

  lemma StartsAtZero(off: seq<int>, tgt: seq<int>, deps: seq<seq<int>>, d: int)
    requires IsCsr(off, tgt, deps)
    ensures |off| == |deps| + 1 && off[0] == 0 && |Sources(deps, d, 0)| == 0
  {
  }

  lemma SourcesOneMore(deps: seq<seq<int>>, d: int, n: nat)
    requires n < |deps|
    ensures |Sources(deps, d, n + 1)| == |Sources(deps, d, n)| + |RowSources(deps[n], n, d, |deps[n]|)|
  {
  }

  lemma RowOf(off: seq<int>, tgt: seq<int>, deps: seq<seq<int>>, n: nat)
    requires IsCsr(off, tgt, deps) && n < |deps|
    ensures RowIs(off, tgt, n, deps[n])
  {
  }

  method CountInDegrees(fwdTgt: seq<int>, n: nat) returns (inDeg: array<int>)
    ensures fresh(inDeg) && inDeg.Length == n
    ensures forall d | 0 <= d < n :: inDeg[d] == multiset(fwdTgt)[d]
  {
    inDeg := new int[n](_ => 0);
    for k := 0 to |fwdTgt|
      invariant forall d | 0 <= d < n :: inDeg[d] == multiset(fwdTgt[..k])[d]
    {
      assert fwdTgt[..k + 1] == fwdTgt[..k] + [fwdTgt[k]];
      var d := fwdTgt[k];
      if d >= 0 && d < n {
        inDeg[d] := inDeg[d] + 1;
      }
    }
    assert fwdTgt[..|fwdTgt|] == fwdTgt;
  }

  // ---- Pass 2: prefix sums ----

  method PrefixSums(inDeg: array<int>) returns (offsets: array<int>, total: int)
    ensures fresh(offsets) && offsets.Length == inDeg.Length + 1
    ensures total == Sum(inDeg[..])
    ensures forall d | 0 <= d <= inDeg.Length :: offsets[d] == Sum(inDeg[..d])
  {
    var n := inDeg.Length;
    offsets := new int[n + 1];
    total := 0;
    for i := 0 to n
      invariant total == Sum(inDeg[..i])
      invariant forall d | 0 <= d < i :: offsets[d] == Sum(inDeg[..d])
    {
      assert inDeg[..i + 1][..i] == inDeg[..i];
      offsets[i] := total;
      total := total + inDeg[i];
    }
    offsets[n] := total;
    assert inDeg[..n] == inDeg[..];
  }

  /** Consecutive offsets span the counts they were summed from. */
  lemma OffsetsSpan(s: seq<int>, offsets: seq<int>)
    requires |offsets| == |s| + 1 && forall i | 0 <= i < |s| :: s[i] >= 0
    requires forall d | 0 <= d <= |s| :: offsets[d] == Sum(s[..d])
    ensures forall d, e | 0 <= d <= e <= |s| :: 0 <= offsets[d] <= offsets[e]
    ensures forall d | 0 <= d < |s| :: offsets[d + 1] == offsets[d] + s[d]
  {
    forall d, e | 0 <= d <= e <= |s| ensures 0 <= offsets[d] <= offsets[e] {
      SumGrows(s, d, e);
    }
    forall d | 0 <= d < |s| ensures offsets[d + 1] == offsets[d] + s[d] {
      assert s[..d + 1][..d] == s[..d];
    }
  }

  // ---- Pass 3: scattering ----

  /** The region of `d` starts with its sources so far, and `pos` marks their
      end. */
  ghost predicate RegionAt(deps: seq<seq<int>>, offsets: seq<int>, targets: seq<int>, pos: seq<int>, i: nat, k: nat,
                           d: nat)
    requires i <= |deps| && (if i < |deps| then k <= |deps[i]| else k == 0)
    requires d < |deps| && |offsets| == |deps| + 1 && |pos| == |deps|
  {
    && 0 <= offsets[d] <= pos[d] <= offsets[d + 1] <= |targets|
    && offsets[d + 1] - offsets[d] == |Sources(deps, d, |deps|)|
    && targets[offsets[d]..pos[d]] == SourcesAt(deps, d, i, k)
  }

  /** The scatter has handled `i` rows and `k` entries of the next. */
  ghost predicate Scattered(deps: seq<seq<int>>, offsets: seq<int>, targets: seq<int>, pos: seq<int>, i: nat, k: nat)
    requires i <= |deps| && (if i < |deps| then k <= |deps[i]| else k == 0)
  {
    && |offsets| == |deps| + 1 && |pos| == |deps|
    && (forall d, e | 0 <= d <= e <= |deps| :: offsets[d] <= offsets[e])
    && (forall d | 0 <= d < |deps| :: RegionAt(deps, offsets, targets, pos, i, k, d))
  }

  lemma {:induction false} RowSourcesGrow(row: seq<int>, i: int, d: int, k: nat, m: nat)
    requires k <= m <= |row|
    ensures |RowSources(row, i, d, k)| <= |RowSources(row, i, d, m)|
  {
    if k < m {
      RowSourcesGrow(row, i, d, k, m - 1);
    }
  }

  lemma {:induction false} SourcesGrow(deps: seq<seq<int>>, d: int, n: nat, m: nat)
    requires n <= m <= |deps|
    ensures |Sources(deps, d, n)| <= |Sources(deps, d, m)|
  {
    if n < m {
      SourcesGrow(deps, d, n, m - 1);
    }
  }

  /** A partial list is never longer than the whole one. */
  lemma SourcesAtFits(deps: seq<seq<int>>, d: int, i: nat, k: nat)
    requires i < |deps| && k <= |deps[i]|
    ensures |SourcesAt(deps, d, i, k)| <= |Sources(deps, d, |deps|)|
  {
    RowSourcesGrow(deps[i], i, d, k, |deps[i]|);
    SourcesGrow(deps, d, i + 1, |deps|);
  }

  /** One scattered edge `i -> d`. */
  lemma ScatterStep(deps: seq<seq<int>>, offsets: seq<int>, targets: seq<int>, pos: seq<int>, i: nat, k: nat)
    requires i < |deps| && k < |deps[i]| && 0 <= deps[i][k] < |deps|
    requires Scattered(deps, offsets, targets, pos, i, k)
    ensures var d := deps[i][k];
            0 <= pos[d] < |targets| && Scattered(deps, offsets, targets[pos[d] := i], pos[d := pos[d] + 1], i, k + 1)
  {
    var d := deps[i][k];
    SourcesAtFits(deps, d, i, k + 1);
    assert SourcesAt(deps, d, i, k + 1) == SourcesAt(deps, d, i, k) + [i];
    assert RegionAt(deps, offsets, targets, pos, i, k, d);
    var p := pos[d];
    assert |targets[offsets[d]..p]| == p - offsets[d] == |SourcesAt(deps, d, i, k)|;
    assert p < offsets[d + 1];
    var targets', pos', k' := targets[p := i], pos[d := p + 1], k + 1;
    forall e | 0 <= e < |deps| ensures RegionAt(deps, offsets, targets', pos', i, k', e) {
      assert RegionAt(deps, offsets, targets, pos, i, k, e);
      if e == d {
        assert targets'[offsets[e]..p + 1] == targets[offsets[e]..p] + [i];
      } else {
        assert SourcesAt(deps, e, i, k + 1) == SourcesAt(deps, e, i, k);
        assert offsets[e + 1] <= offsets[d] || offsets[d + 1] <= offsets[e];
        assert targets'[offsets[e]..pos[e]] == targets[offsets[e]..pos[e]];
      }
    }
  }

  /** An edge that leaves the graph is skipped. */
  lemma SkipStep(deps: seq<seq<int>>, offsets: seq<int>, targets: seq<int>, pos: seq<int>, i: nat, k: nat)
    requires i < |deps| && k < |deps[i]| && !(0 <= deps[i][k] < |deps|)
    requires Scattered(deps, offsets, targets, pos, i, k)
    ensures Scattered(deps, offsets, targets, pos, i, k + 1)
  {
    var k' := k + 1;
    forall e | 0 <= e < |deps| ensures RegionAt(deps, offsets, targets, pos, i, k', e) {
      assert RegionAt(deps, offsets, targets, pos, i, k, e);
      assert SourcesAt(deps, e, i, k + 1) == SourcesAt(deps, e, i, k);
    }
  }

  lemma NextRow(deps: seq<seq<int>>, offsets: seq<int>, targets: seq<int>, pos: seq<int>, i: nat)
    requires i < |deps| && Scattered(deps, offsets, targets, pos, i, |deps[i]|)
    ensures Scattered(deps, offsets, targets, pos, i + 1, 0)
  {
    var i' := i + 1;
    forall e | 0 <= e < |deps| ensures RegionAt(deps, offsets, targets, pos, i', 0, e) {
      assert RegionAt(deps, offsets, targets, pos, i, |deps[i]|, e);
      assert SourcesAt(deps, e, i + 1, 0) == SourcesAt(deps, e, i, |deps[i]|);
    }
  }

  /** Every region holds exactly the sources of its node. */
  ghost predicate IsReverse(deps: seq<seq<int>>, offsets: seq<int>, targets: seq<int>) {
    |offsets| == |deps| + 1 && forall d | 0 <= d < |deps| :: RowIs(offsets, targets, d, Sources(deps, d, |deps|))
  }

  lemma ScatteredAll(deps: seq<seq<int>>, offsets: seq<int>, targets: seq<int>, pos: seq<int>)
    requires Scattered(deps, offsets, targets, pos, |deps|, 0)
    ensures IsReverse(deps, offsets, targets)
  {
    forall d | 0 <= d < |deps| ensures RowIs(offsets, targets, d, Sources(deps, d, |deps|)) {
      assert RegionAt(deps, offsets, targets, pos, |deps|, 0, d);
      assert |targets[offsets[d]..pos[d]]| == pos[d] - offsets[d];
      assert SourcesAt(deps, d, |deps|, 0) == Sources(deps, d, |deps|);
    }
  }

  lemma ScatteredNone(deps: seq<seq<int>>, offsets: seq<int>, targets: seq<int>, pos: seq<int>)
    requires |offsets| == |deps| + 1 && |pos| == |deps| && offsets[|deps|] == |targets|
    requires forall d, e | 0 <= d <= e <= |deps| :: 0 <= offsets[d] <= offsets[e]
    requires forall d | 0 <= d < |deps| :: offsets[d + 1] == offsets[d] + |Sources(deps, d, |deps|)|
    requires forall d | 0 <= d < |deps| :: pos[d] == offsets[d]
    ensures Scattered(deps, offsets, targets, pos, 0, 0)
  {
    assert forall d | 0 <= d < |deps| :: SourcesAt(deps, d, 0, 0) == [];
  }

  /** The offsets of passes 1 and 2 leave each node room for its sources. */
  method CountAndSum(fwdOff: seq<int>, fwdTgt: seq<int>, n: nat, ghost deps: seq<seq<int>>)
    returns (offsets: array<int>, total: nat)
    requires |deps| == n && IsCsr(fwdOff, fwdTgt, deps)
    ensures fresh(offsets) && offsets.Length == n + 1 && offsets[n] == total
    ensures forall d, e | 0 <= d <= e <= n :: 0 <= offsets[d] <= offsets[e]
    ensures forall d | 0 <= d < n :: offsets[d + 1] == offsets[d] + |Sources(deps, d, n)|
  {
    hide Sources;
    var inDeg := CountInDegrees(fwdTgt, n);
    forall d | 0 <= d < n ensures inDeg[..][d] == |Sources(deps, d, n)| {
      TotalCount(fwdOff, fwdTgt, deps, d, n);
      assert fwdTgt[..|fwdTgt|] == fwdTgt;
    }
    ghost var counts := inDeg[..];
    hide IsCsr;
    var sum;
    offsets, sum := PrefixSums(inDeg);
    forall d | 0 <= d <= n ensures offsets[..][d] == Sum(counts[..d]) {
      assert counts[..d] == inDeg[..d];
    }
    OffsetsSpan(counts, offsets[..]);
    forall d, e | 0 <= d <= e <= n ensures 0 <= offsets[d] <= offsets[e] {
      assert offsets[..][d] <= offsets[..][e];
    }
    forall d | 0 <= d < n ensures offsets[d + 1] == offsets[d] + |Sources(deps, d, n)| {
      assert offsets[..][d + 1] == offsets[..][d] + counts[d];
    }
    assert counts[..n] == counts;
    total := sum;
  }

  /** Passes 1 and 2, and the arrays pass 3 starts from. */
  method Prepare(fwdOff: seq<int>, fwdTgt: seq<int>, n: nat, ghost deps: seq<seq<int>>)
    returns (offsets: array<int>, targets: array<int>, pos: array<int>)
    requires |deps| == n && IsCsr(fwdOff, fwdTgt, deps)
    ensures fresh(offsets) && fresh(targets) && fresh(pos)
    ensures offsets != targets && offsets != pos && targets != pos
    ensures Scattered(deps, offsets[..], targets[..], pos[..], 0, 0)
  {
    hide Sources, IsCsr;
    var total;
    offsets, total := CountAndSum(fwdOff, fwdTgt, n, deps);
    targets := new int[total](_ => 0);
    pos := new int[n](i requires 0 <= i < offsets.Length reads offsets => offsets[i]);
    ScatteredNone(deps, offsets[..], targets[..], pos[..]);
  }

  method BuildReverseCsr(fwdOff: seq<int>, fwdTgt: seq<int>, n: nat, ghost deps: seq<seq<int>>)
    returns (offsets: array<int>, targets: array<int>)
    requires |deps| == n && IsCsr(fwdOff, fwdTgt, deps)
    ensures fresh(offsets) && fresh(targets)
    ensures IsReverse(deps, offsets[..], targets[..])
  {
    hide Scattered, IsReverse;
    var pos;
    offsets, targets, pos := Prepare(fwdOff, fwdTgt, n, deps);
    for i := 0 to n
      invariant Scattered(deps, offsets[..], targets[..], pos[..], i, 0)
      modifies targets, pos
    {
      assert RowIs(fwdOff, fwdTgt, i, deps[i]);
      ghost var k0 := fwdOff[i];
      for k := fwdOff[i] to fwdOff[i + 1]
        invariant Scattered(deps, offsets[..], targets[..], pos[..], i, k - k0)
      {
        var d := fwdTgt[k];
        assert d == fwdTgt[fwdOff[i]..fwdOff[i + 1]][k - k0] == deps[i][k - k0];
        if d >= 0 && d < n {
          ScatterStep(deps, offsets[..], targets[..], pos[..], i, k - k0);
          SameLengths(deps, offsets[..], targets[..], pos[..], i, k - k0);
          ghost var t0, p0 := targets[..], pos[..];
          targets[pos[d]] := i;
          pos[d] := pos[d] + 1;
          assert targets[..] == t0[p0[d] := i] && pos[..] == p0[d := p0[d] + 1];
        } else {
          SkipStep(deps, offsets[..], targets[..], pos[..], i, k - k0);
        }
      }
      NextRow(deps, offsets[..], targets[..], pos[..], i);
    }
    ScatteredAll(deps, offsets[..], targets[..], pos[..]);
  }

  lemma SameLengths(deps: seq<seq<int>>, offsets: seq<int>, targets: seq<int>, pos: seq<int>, i: nat, k: nat)
    requires i < |deps| && k <= |deps[i]| && Scattered(deps, offsets, targets, pos, i, k)
    ensures |pos| == |deps| && |offsets| == |deps| + 1
  {
  }
}
