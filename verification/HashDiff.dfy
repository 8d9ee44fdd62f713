/** Phase 1: finding the nodes whose hash changed, by comparing whole runs of
    the hash column and bisecting the runs that differ. */
module HashDiff {
  import opened ByteStrings
  import opened TargetDiff
  import opened Snapshot

  /** One changed target, shared by every later phase. */
  class ChangedNode {
    const kind: ChangeType
    const afterIndex: int
    const beforeIndex: int
    var distance: int
    var seed: bool

    constructor (kind: ChangeType, afterIndex: int, beforeIndex: int)
      ensures this.kind == kind && this.afterIndex == afterIndex && this.beforeIndex == beforeIndex
      ensures distance == 0 && !seed
    {
      this.kind, this.afterIndex, this.beforeIndex := kind, afterIndex, beforeIndex;
      distance, seed := 0, false;
    }
  }

  predicate IsNode(c: ChangedNode?, kind: ChangeType, afterIndex: int, beforeIndex: int) {
    c != null && c.kind == kind && c.afterIndex == afterIndex && c.beforeIndex == beforeIndex
  }

  // ---- Fixed-stride slices ----

  /** Entries [i, i + n) of a column of `stride`-byte entries. */
  function Entries(column: seq<byte>, stride: nat, i: nat, n: nat): seq<byte>
    requires (i + n) * stride <= |column|
  {
    assert 0 <= i * stride <= (i + n) * stride by {
      MulGrows(i, i + n, stride);
    }
    column[i * stride..(i + n) * stride]
  }

  lemma EntriesSplit(column: seq<byte>, stride: nat, i: nat, m: nat, n: nat)
    requires (i + m + n) * stride <= |column|
    ensures (i + m) * stride <= |column|
    ensures Entries(column, stride, i, m + n) == Entries(column, stride, i, m) + Entries(column, stride, i + m, n)
    ensures |Entries(column, stride, i, m)| == m * stride
  {
    MulGrows(i, i + m, stride);
    MulGrows(i + m, i + m + n, stride);
    assert (i + m) * stride - i * stride == m * stride;
  }

  /** How many of the `n` entry pairs from (b, a) on differ. */
  ghost function Changes(bHashes: seq<byte>, aHashes: seq<byte>, stride: nat, b: nat, a: nat, n: nat): nat
    requires (b + n) * stride <= |bHashes| && (a + n) * stride <= |aHashes|
  {
    if n == 0 then 0
    else
      MulGrows(b + n - 1, b + n, stride); MulGrows(a + n - 1, a + n, stride);
      Changes(bHashes, aHashes, stride, b, a, n - 1) +
          (if EntryDiffers(bHashes, aHashes, stride, b + n - 1, a + n - 1) then 1 else 0)
  }

  ghost predicate EntryDiffers(bHashes: seq<byte>, aHashes: seq<byte>, stride: nat, b: nat, a: nat) {
    (b + 1) * stride <= |bHashes| && (a + 1) * stride <= |aHashes| &&
    Entries(bHashes, stride, b, 1) != Entries(aHashes, stride, a, 1)
  }

  lemma {:induction false} ChangesSplit(bHashes: seq<byte>, aHashes: seq<byte>, stride: nat, b: nat, a: nat, m: nat,
                                        n: nat)
    requires (b + m + n) * stride <= |bHashes| && (a + m + n) * stride <= |aHashes|
    ensures (b + m) * stride <= |bHashes| && (a + m) * stride <= |aHashes|
    ensures Changes(bHashes, aHashes, stride, b, a, m + n) ==
            Changes(bHashes, aHashes, stride, b, a, m) + Changes(bHashes, aHashes, stride, b + m, a + m, n)
  {
    MulGrows(b + m, b + m + n, stride);
    MulGrows(a + m, a + m + n, stride);
    if n > 0 {
      MulGrows(b + m + n - 1, b + m + n, stride);
      MulGrows(a + m + n - 1, a + m + n, stride);
      ChangesSplit(bHashes, aHashes, stride, b, a, m, n - 1);
      assert m + n - 1 == m + (n - 1);
    }
  }

  /** A run's slices are equal exactly when none of its entries differ. */
  lemma {:induction false} EqualSlices(bHashes: seq<byte>, aHashes: seq<byte>, stride: nat, b: nat, a: nat, n: nat)
    requires (b + n) * stride <= |bHashes| && (a + n) * stride <= |aHashes|
    ensures Entries(bHashes, stride, b, n) == Entries(aHashes, stride, a, n) <==>
            Changes(bHashes, aHashes, stride, b, a, n) == 0
  {
    if n > 0 {
      MulGrows(b + n - 1, b + n, stride);
      MulGrows(a + n - 1, a + n, stride);
      EqualSlices(bHashes, aHashes, stride, b, a, n - 1);
      EntriesSplit(bHashes, stride, b, n - 1, 1);
      EntriesSplit(aHashes, stride, a, n - 1, 1);
      var x, y := Entries(bHashes, stride, b, n - 1), Entries(aHashes, stride, a, n - 1);
      var u, v := Entries(bHashes, stride, b + n - 1, 1), Entries(aHashes, stride, a + n - 1, 1);
      assert n - 1 + 1 == n;
      assert |x| == |y|;
      assert (x + u)[..|x|] == x && (x + u)[|x|..] == u;
      assert (y + v)[..|y|] == y && (y + v)[|y|..] == v;
    } else {
      assert |Entries(bHashes, stride, b, 0)| == 0 && |Entries(aHashes, stride, a, 0)| == 0;
    }
  }

  lemma {:induction false} NoChangesWithin(bHashes: seq<byte>, aHashes: seq<byte>, stride: nat, b: nat, a: nat, n: nat,
                                           k: nat)
    requires (b + n) * stride <= |bHashes| && (a + n) * stride <= |aHashes| && k < n
    requires Changes(bHashes, aHashes, stride, b, a, n) == 0
    ensures !EntryDiffers(bHashes, aHashes, stride, b + k, a + k)
  {
    MulGrows(b + n - 1, b + n, stride);
    MulGrows(a + n - 1, a + n, stride);
    if k < n - 1 {
      NoChangesWithin(bHashes, aHashes, stride, b, a, n - 1, k);
    }
  }

  // ---- Bisection ----

  /** After-slot `i` lies in the run of `n` entries from (b, a) on, and its
      entries differ. */
  ghost predicate DiffersInRun(bHashes: seq<byte>, aHashes: seq<byte>, stride: nat, b: nat, a: nat, n: nat, i: int) {
    a <= i < a + n && EntryDiffers(bHashes, aHashes, stride, b + i - a, i)
  }

  /** `marked` is `prior` with every empty slot of a differing entry of the run
      filled, and nothing else touched. */
  ghost predicate RunMarked(bHashes: seq<byte>, aHashes: seq<byte>, stride: nat, b: nat, a: nat, n: nat,
                            prior: seq<ChangedNode?>, marked: seq<ChangedNode?>) {
    && |marked| == |prior|
    && forall i | 0 <= i < |prior| ::
         if DiffersInRun(bHashes, aHashes, stride, b, a, n, i) && prior[i] == null
         then IsNode(marked[i], Changed, i, b + i - a)
         else marked[i] == prior[i]
  }

  /** The smallest `l` with `n <= 2^l`. */
  function Log2Up(n: nat): nat {
    if n <= 1 then 0 else 1 + Log2Up((n + 1) / 2)
  }

  lemma {:induction false} Log2UpGrows(m: nat, n: nat)
    requires m <= n
    ensures Log2Up(m) <= Log2Up(n)
    decreases n
  {
    if m > 1 {
      Log2UpGrows((m + 1) / 2, (n + 1) / 2);
    }
  }

  lemma HalvesCost(n: nat, left: nat, right: nat, leftCalls: nat, rightCalls: nat)
    requires n > 1 && left + right > 0
    requires leftCalls <= left * (Log2Up(n / 2) + 1) && rightCalls <= right * (Log2Up(n - n / 2) + 1)
    ensures 1 + leftCalls + rightCalls <= (left + right) * (Log2Up(n) + 1)
  {
    var l, m := Log2Up(n - n / 2), Log2Up(n / 2);
    assert Log2Up(n) == 1 + l;
    Log2UpGrows(n / 2, n - n / 2);
    hide Log2Up;
    TimesGrows(left, m + 1, l + 1);
    assert (left + right) * (l + 2) == left * (l + 1) + right * (l + 1) + (left + right);
  }

  lemma TimesGrows(x: nat, y: nat, z: nat)
    requires y <= z
    ensures x * y <= x * z
  {
    MulGrows(y, z, x);
  }

  lemma UnmarkedRun(bHashes: seq<byte>, aHashes: seq<byte>, stride: nat, b: nat, a: nat, n: nat,
                    nodes: seq<ChangedNode?>)
    requires (b + n) * stride <= |bHashes| && (a + n) * stride <= |aHashes|
    requires Changes(bHashes, aHashes, stride, b, a, n) == 0
    ensures RunMarked(bHashes, aHashes, stride, b, a, n, nodes, nodes)
  {
    forall i ensures !DiffersInRun(bHashes, aHashes, stride, b, a, n, i) {
      if a <= i < a + n {
        NoChangesWithin(bHashes, aHashes, stride, b, a, n, i - a);
      }
    }
  }

  lemma UnmarkedEmptyRun(bHashes: seq<byte>, aHashes: seq<byte>, stride: nat, b: nat, a: nat, nodes: seq<ChangedNode?>)
    ensures RunMarked(bHashes, aHashes, stride, b, a, 0, nodes, nodes)
  {
  }

  lemma MarkedOne(bHashes: seq<byte>, aHashes: seq<byte>, stride: nat, b: nat, a: nat, prior: seq<ChangedNode?>,
                  node: ChangedNode?)
    requires (b + 1) * stride <= |bHashes| && (a + 1) * stride <= |aHashes| && a < |prior|
    requires Entries(bHashes, stride, b, 1) != Entries(aHashes, stride, a, 1)
    requires if prior[a] == null then IsNode(node, Changed, a, b) else node == prior[a]
    ensures RunMarked(bHashes, aHashes, stride, b, a, 1, prior, prior[a := node])
    ensures Changes(bHashes, aHashes, stride, b, a, 1) == 1
  {
    assert Changes(bHashes, aHashes, stride, b, a, 0) == 0;
  }

  lemma MarkedHalves(bHashes: seq<byte>, aHashes: seq<byte>, stride: nat, b: nat, a: nat, m: nat, n: nat,
                     prior: seq<ChangedNode?>, middle: seq<ChangedNode?>, marked: seq<ChangedNode?>)
    requires m <= n
    requires RunMarked(bHashes, aHashes, stride, b, a, m, prior, middle)
    requires RunMarked(bHashes, aHashes, stride, b + m, a + m, n - m, middle, marked)
    ensures RunMarked(bHashes, aHashes, stride, b, a, n, prior, marked)
  {
    forall i | 0 <= i < |prior|
      ensures if DiffersInRun(bHashes, aHashes, stride, b, a, n, i) && prior[i] == null
              then IsNode(marked[i], Changed, i, b + i - a)
              else marked[i] == prior[i]
    {
      assert (b + m) + i - (a + m) == b + i - a;
      assert DiffersInRun(bHashes, aHashes, stride, b, a, n, i) <==>
        DiffersInRun(bHashes, aHashes, stride, b, a, m, i) ||
        DiffersInRun(bHashes, aHashes, stride, b + m, a + m, n - m, i);
    }
  }

  /** What the halves of a differing run add up to. */
  lemma Halve(bHashes: seq<byte>, aHashes: seq<byte>, stride: nat, b: nat, a: nat, m: nat, n: nat)
    requires m <= n && (b + n) * stride <= |bHashes| && (a + n) * stride <= |aHashes|
    requires Entries(bHashes, stride, b, n) != Entries(aHashes, stride, a, n)
    ensures (b + m) * stride <= |bHashes| && (a + m) * stride <= |aHashes|
    ensures (b + m + (n - m)) * stride <= |bHashes| && (a + m + (n - m)) * stride <= |aHashes|
    ensures var left, right := Changes(bHashes, aHashes, stride, b, a, m),
        Changes(bHashes, aHashes, stride, b + m, a + m, n - m);
            && left + right == Changes(bHashes, aHashes, stride, b, a, n) > 0
            && (left == 0 <==> Entries(bHashes, stride, b, m) == Entries(aHashes, stride, a, m))
            && (right == 0 <==> Entries(bHashes, stride, b + m, n - m) == Entries(aHashes, stride, a + m, n - m))
  {
    ChangesSplit(bHashes, aHashes, stride, b, a, m, n - m);
    EqualSlices(bHashes, aHashes, stride, b, a, n);
    EqualSlices(bHashes, aHashes, stride, b, a, m);
    EqualSlices(bHashes, aHashes, stride, b + m, a + m, n - m);
    assert m + (n - m) == n;
  }

  /** Marks exactly the differing entries of a run known to differ, in at most
      d * (ceil(log2 n) + 1) calls for d differing entries among n. */
  method BisectHashRun(bHashes: seq<byte>, aHashes: seq<byte>, stride: nat, bStart: nat, aStart: nat, length: nat,
                       changedByAfter: array<ChangedNode?>)
    returns (ghost calls: nat)
    requires (bStart + length) * stride <= |bHashes| && (aStart + length) * stride <= |aHashes|
    requires aStart + length <= changedByAfter.Length
    requires length > 0 ==> Entries(bHashes, stride, bStart, length) != Entries(aHashes, stride, aStart, length)
    modifies changedByAfter
    ensures RunMarked(bHashes, aHashes, stride, bStart, aStart, length, old(changedByAfter[..]), changedByAfter[..])
    ensures forall i | 0 <= i < changedByAfter.Length ::
        changedByAfter[i] == old(changedByAfter[i]) || (fresh(changedByAfter[i]) && !changedByAfter[i].seed)
    ensures length > 0 ==> calls <= Changes(bHashes, aHashes, stride, bStart, aStart, length) * (Log2Up(length) + 1)
    decreases length
  {
    hide Changes, Entries, RunMarked;
    calls := 1;
    ghost var prior := changedByAfter[..];
    if length == 0 {
      UnmarkedEmptyRun(bHashes, aHashes, stride, bStart, aStart, prior);
      return;
    }
    if length == 1 {
      if changedByAfter[aStart] == null {
        var node := new ChangedNode(Changed, aStart, bStart);
        changedByAfter[aStart] := node;
      }
      MarkedOne(bHashes, aHashes, stride, bStart, aStart, prior, changedByAfter[aStart]);
      assert changedByAfter[..] == prior[aStart := changedByAfter[aStart]];
      return;
    }
    hide Log2Up;
    var half := length / 2;
    Halve(bHashes, aHashes, stride, bStart, aStart, half, length);
    ghost var leftCalls, rightCalls := 0, 0;
    if Entries(bHashes, stride, bStart, half) != Entries(aHashes, stride, aStart, half) {
      leftCalls := BisectHashRun(bHashes, aHashes, stride, bStart, aStart, half, changedByAfter);
    } else {
      UnmarkedRun(bHashes, aHashes, stride, bStart, aStart, half, prior);
    }
    ghost var middle := changedByAfter[..];
    if Entries(bHashes, stride, bStart + half, length - half) != Entries(aHashes, stride, aStart + half,
        length - half) {
      rightCalls := BisectHashRun(bHashes, aHashes, stride, bStart + half, aStart + half, length - half,
                                  changedByAfter);
    } else {
      UnmarkedRun(bHashes, aHashes, stride, bStart + half, aStart + half, length - half, middle);
    }
    calls := 1 + leftCalls + rightCalls;
    HalvesCost(length, Changes(bHashes, aHashes, stride, bStart, aStart, half),
               Changes(bHashes, aHashes, stride, bStart + half, aStart + half, length - half), leftCalls, rightCalls);
    MarkedHalves(bHashes, aHashes, stride, bStart, aStart, half, length, prior, middle, changedByAfter[..]);
  }
}
