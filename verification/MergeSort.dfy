/** The encoder's sort: halves sorted by themselves, then merged through a
    buffer. */
module MergeSort {
  import opened Sorting
  import opened Slices

  /** The two-finger merge; of two that tie, the left one comes first. */
  function Merge<T>(leq: (T, T) -> bool, xs: seq<T>, ys: seq<T>): (m: seq<T>)
    ensures |m| == |xs| + |ys|
    decreases |xs| + |ys|
  {
    if xs == [] then ys
    else if ys == [] then xs
    else if leq(xs[0], ys[0]) then [xs[0]] + Merge(leq, xs[1..], ys)
    else [ys[0]] + Merge(leq, xs, ys[1..])
  }

  lemma {:induction false} MergeKeepsAll<T>(leq: (T, T) -> bool, xs: seq<T>, ys: seq<T>)
    ensures multiset(Merge(leq, xs, ys)) == multiset(xs) + multiset(ys)
    decreases |xs| + |ys|
  {
    if xs != [] && ys != [] {
      FirstOf(xs);
      FirstOf(ys);
      if leq(xs[0], ys[0]) {
        MergeKeepsAll(leq, xs[1..], ys);
      } else {
        MergeKeepsAll(leq, xs, ys[1..]);
      }
    }
  }

  lemma FirstOf<T>(s: seq<T>)
    requires s != []
    ensures multiset(s) == multiset{s[0]} + multiset(s[1..])
  {
    assert s == [s[0]] + s[1..];
  }

  lemma {:induction false} MergeSorted<T(!new)>(leq: (T, T) -> bool, xs: seq<T>, ys: seq<T>)
    requires TotalPreorder(leq) && Sorted(leq, xs) && Sorted(leq, ys)
    ensures Sorted(leq, Merge(leq, xs, ys))
    decreases |xs| + |ys|
  {
    if xs != [] && ys != [] {
      if leq(xs[0], ys[0]) {
        MergeSorted(leq, xs[1..], ys);
        LeastFirst(leq, xs[0], xs[1..], ys);
      } else {
        MergeSorted(leq, xs, ys[1..]);
        LeastFirst(leq, ys[0], xs, ys[1..]);
      }
    }
  }

  lemma LeastFirst<T(!new)>(leq: (T, T) -> bool, x: T, xs: seq<T>, ys: seq<T>)
    requires TotalPreorder(leq) && Sorted(leq, xs) && Sorted(leq, ys)
    requires (xs != [] ==> leq(x, xs[0])) && (ys != [] ==> leq(x, ys[0]))
    ensures forall k | 0 <= k < |Merge(leq, xs, ys)| :: leq(x, Merge(leq, xs, ys)[k])
  {
    MergeKeepsAll(leq, xs, ys);
    var m := Merge(leq, xs, ys);
    forall k | 0 <= k < |m| ensures leq(x, m[k]) {
      assert m[k] in multiset(m);
      if m[k] in xs {
        var i :| 0 <= i < |xs| && xs[i] == m[k];
      } else {
        assert m[k] in ys;
        var i :| 0 <= i < |ys| && ys[i] == m[k];
      }
    }
  }

  ghost predicate SameOutside<T>(was: seq<T>, now: seq<T>, lo: nat, hi: nat)
    requires lo <= hi <= |was|
  {
    |now| == |was| && now[..lo] == was[..lo] && now[hi..] == was[hi..]
  }

  lemma OutsideBoth<T>(was: seq<T>, mid: seq<T>, now: seq<T>, lo: nat, hi: nat, lo': nat, hi': nat, from: nat, to: nat)
    requires from <= lo <= hi <= to <= |was| == |mid| && from <= lo' <= hi' <= to
    requires SameOutside(was, mid, lo, hi) && SameOutside(mid, now, lo', hi')
    ensures SameOutside(was, now, from, to)
  {
    assert mid[..from] == mid[..lo][..from] == was[..from] && now[..from] == now[..lo'][..from] == mid[..from];
    assert mid[to..] == mid[hi..][to - hi..] == was[to..] && now[to..] == now[hi'..][to - hi'..] == mid[to..];
  }

  lemma OutsideKept<T>(was: seq<T>, now: seq<T>, lo: nat, hi: nat, x: nat, y: nat)
    requires lo <= hi <= |was| && SameOutside(was, now, lo, hi) && x <= y <= |was| && (y <= lo || hi <= x)
    ensures now[x..y] == was[x..y]
  {
    if y <= lo {
      assert now[x..y] == now[..lo][x..y] && was[x..y] == was[..lo][x..y];
    } else {
      SliceOfSlice(now, hi, |now|, x - hi, y - hi);
      SliceOfSlice(was, hi, |was|, x - hi, y - hi);
    }
  }

  /** `slices.SortFunc` on `a[lo..hi]`. */
  method SortRange<T(!new)>(a: array<T>, lo: nat, hi: nat, leq: (T, T) -> bool)
    requires lo <= hi <= a.Length && TotalPreorder(leq)
    modifies a
    ensures Sorted(leq, a[lo..hi]) && multiset(a[lo..hi]) == multiset(old(a[lo..hi]))
    ensures SameOutside(old(a[..]), a[..], lo, hi)
  {
    hide TotalPreorder, Sort, Sorted;
    var sorted := Sort(leq, a[lo..hi]);
    SortSorted(leq, a[lo..hi]);
    forall i | lo <= i < hi {
      a[i] := sorted[i - lo];
    }
    assert a[lo..hi] == sorted;
  }

  /** `copy`. */
  method Copy<T>(src: array<T>, from: nat, n: nat, dst: array<T>, at: nat)
    requires src != dst && from + n <= src.Length && at + n <= dst.Length
    modifies dst
    ensures dst[at..at + n] == src[from..from + n]
    ensures SameOutside(old(dst[..]), dst[..], at, at + n)
  {
    forall x | 0 <= x < n {
      dst[at + x] := src[from + x];
    }
  }

  lemma MergeStep<T>(leq: (T, T) -> bool, done: seq<T>, xs: seq<T>, ys: seq<T>)
    requires xs != [] && ys != []
    ensures done + Merge(leq, xs, ys) ==
            if leq(xs[0], ys[0]) then (done + [xs[0]]) + Merge(leq, xs[1..], ys)
            else (done + [ys[0]]) + Merge(leq, xs, ys[1..])
  {
  }

  lemma MergeRest<T>(leq: (T, T) -> bool, done: seq<T>, xs: seq<T>, ys: seq<T>)
    requires xs == [] || ys == []
    ensures done + xs + ys == done + Merge(leq, xs, ys)
  {
  }

  lemma OutsideItself<T>(s: seq<T>, lo: nat, hi: nat)
    requires lo <= hi <= |s|
    ensures SameOutside(s, s, lo, hi)
  {
  }

  lemma OutsideOne<T>(first: seq<T>, was: seq<T>, lo: nat, hi: nat, k: nat, x: T)
    requires lo <= k < hi <= |first| && SameOutside(first, was, lo, hi)
    ensures SameOutside(first, was[k := x], lo, hi)
  {
    assert was[k := x][..lo] == was[..lo] && was[k := x][hi..] == was[hi..];
  }

  lemma OnePut<T>(was: seq<T>, now: seq<T>, lo: nat, k: nat)
    requires lo <= k < |was| && |now| == |was| && now == was[k := now[k]]
    ensures now[lo..k + 1] == was[lo..k] + [now[k]]
  {
  }

  /** Merges until one half is used up. */
  method MergeFront<T(!new)>(a: array<T>, buf: array<T>, lo: nat, m: nat, hi: nat, leq: (T, T) -> bool)
    returns (i: nat, j: nat)
    requires lo <= m <= hi <= a.Length == buf.Length && a != buf
    modifies buf
    ensures lo <= i <= m <= j <= hi && (i == m || j == hi)
    ensures buf[lo..i + j - m] + Merge(leq, a[i..m], a[j..hi]) == Merge(leq, a[lo..m], a[m..hi])
    ensures SameOutside(old(buf[..]), buf[..], lo, hi)
  {
    hide Merge, SameOutside;
    ghost var s := a[..];
    i, j := lo, m;
    var k := lo;
    OutsideItself(buf[..], lo, hi);
    assert buf[lo..k] == [];
    while i < m && j < hi
      invariant lo <= i <= m <= j <= hi && k == i + j - m && a[..] == s
      invariant buf[lo..k] + Merge(leq, s[i..m], s[j..hi]) == Merge(leq, s[lo..m], s[m..hi])
      invariant SameOutside(old(buf[..]), buf[..], lo, hi)
    {
      ghost var was := buf[..];
      MergeStep(leq, was[lo..k], s[i..m], s[j..hi]);
      assert s[i..m][1..] == s[i + 1..m] && s[j..hi][1..] == s[j + 1..hi];
      if leq(a[i], a[j]) {
        buf[k] := a[i];
        i := i + 1;
      } else {
        buf[k] := a[j];
        j := j + 1;
      }
      OnePut(was, buf[..], lo, k);
      OutsideOne(old(buf[..]), was, lo, hi, k, buf[k]);
      k := k + 1;
    }
  }

  /** The sorted halves `a[lo..m]` and `a[m..hi]` merged into `buf`. */
  method MergeInto<T(!new)>(a: array<T>, buf: array<T>, lo: nat, m: nat, hi: nat, leq: (T, T) -> bool)
    requires lo <= m <= hi <= a.Length == buf.Length && a != buf
    modifies buf
    ensures buf[lo..hi] == Merge(leq, a[lo..m], a[m..hi])
    ensures SameOutside(old(buf[..]), buf[..], lo, hi)
  {
    hide Merge, SameOutside;
    var i, j := MergeFront(a, buf, lo, m, hi, leq);
    var k := i + j - m;
    MergeRest(leq, buf[lo..k], a[i..m], a[j..hi]);
    ghost var first := buf[..];
    var at := k + m - i;
    Copy(a, i, m - i, buf, k);
    ghost var second := buf[..];
    Copy(a, j, hi - j, buf, at);
    OutsideKept(first, second, k, at, lo, k);
    OutsideKept(second, buf[..], at, hi, lo, k);
    OutsideKept(second, buf[..], at, hi, k, at);
    Thirds(buf[..], lo, k, at, hi);
    OutsideBoth(first, second, buf[..], k, at, at, hi, lo, hi);
    OutsideBoth(old(buf[..]), first, buf[..], lo, hi, lo, hi, lo, hi);
  }

  lemma Thirds<T>(s: seq<T>, lo: nat, k: nat, l: nat, hi: nat)
    requires lo <= k <= l <= hi <= |s|
    ensures s[lo..hi] == s[lo..k] + s[k..l] + s[l..hi]
  {
  }

  lemma OutsideNothing<T>(s: seq<T>, lo: nat, hi: nat)
    requires lo <= hi <= |s|
    ensures SameOutside(s, s, lo, hi)
  {
  }

  /** The halves use disjoint parts of both arrays, so it does not matter that
      the first one is sorted on another thread. */
  method SortMerge<T(!new)>(a: array<T>, buf: array<T>, lo: nat, hi: nat, leq: (T, T) -> bool, depth: nat)
    requires lo <= hi <= a.Length == buf.Length && a != buf && TotalPreorder(leq)
    modifies a, buf
    ensures Sorted(leq, a[lo..hi]) && multiset(a[lo..hi]) == multiset(old(a[lo..hi]))
    ensures SameOutside(old(a[..]), a[..], lo, hi)
    ensures SameOutside(old(buf[..]), buf[..], lo, hi)
    decreases depth
  {
    hide SameOutside, Merge, Sorted, TotalPreorder;
    if depth == 0 || hi - lo < 4096 {
      SortRange(a, lo, hi, leq);
      OutsideNothing(buf[..], lo, hi);
      return;
    }
    var m := lo + (hi - lo) / 2;
    ghost var start, bufStart := a[..], buf[..];
    SortMerge(a, buf, lo, m, leq, depth - 1);
    ghost var left, bufLeft := a[..], buf[..];
    OutsideKept(start, left, lo, m, m, hi);
    SortMerge(a, buf, m, hi, leq, depth - 1);
    ghost var right, bufRight := a[..], buf[..];
    OutsideKept(left, right, m, hi, lo, m);
    MergeInto(a, buf, lo, m, hi, leq);
    Copy(buf, lo, hi - lo, a, lo);
    MergeSorted(leq, right[lo..m], right[m..hi]);
    MergeKeepsAll(leq, right[lo..m], right[m..hi]);
    OutsideBoth(start, left, right, lo, m, m, hi, lo, hi);
    OutsideBoth(start, right, a[..], lo, hi, lo, hi, lo, hi);
    OutsideBoth(bufStart, bufLeft, bufRight, lo, m, m, hi, lo, hi);
    OutsideBoth(bufStart, bufRight, buf[..], lo, hi, lo, hi, lo, hi);
    Halves(start, lo, m, hi);
  }

  lemma Halves<T>(s: seq<T>, lo: nat, m: nat, hi: nat)
    requires lo <= m <= hi <= |s|
    ensures multiset(s[lo..hi]) == multiset(s[lo..m]) + multiset(s[m..hi])
  {
    assert s[lo..hi] == s[lo..m] + s[m..hi];
  }

  /** The whole array, through a buffer of its own unless it is short. */
  method ParallelSortFunc<T(0, !new)>(a: array<T>, leq: (T, T) -> bool, depth: nat)
    requires TotalPreorder(leq)
    modifies a
    ensures Sorted(leq, a[..]) && multiset(a[..]) == multiset(old(a[..]))
  {
    assert a[0..a.Length] == a[..];
    if a.Length < 32768 {
      SortRange(a, 0, a.Length, leq);
    } else {
      var buf := new T[a.Length];
      SortMerge(a, buf, 0, a.Length, leq, depth);
    }
    assert a[0..a.Length] == a[..];
  }
}
