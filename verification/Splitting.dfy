/** Cutting a list into message-sized groups: in order, nothing lost, no group
    over budget unless it is one item, and no fewer groups possible. */
module Splitting {
  import opened Slices
  import opened Wrappers

  function Flatten<T>(groups: seq<seq<T>>): seq<T> {
    if groups == [] then [] else Flatten(groups[..|groups| - 1]) + groups[|groups| - 1]
  }

  function Bytes<T>(size: T -> nat, items: seq<T>): nat {
    if items == [] then 0 else Bytes(size, items[..|items| - 1]) + size(items[|items| - 1])
  }

  /** A group that may be sent. */
  predicate Fits<T>(size: T -> nat, maxBytes: int, group: seq<T>) {
    |group| <= 1 || Bytes(size, group) <= maxBytes
  }

  /** A cut of `items` into groups that may be sent. */
  ghost predicate IsSplit<T>(size: T -> nat, maxBytes: int, items: seq<T>, groups: seq<seq<T>>) {
    Flatten(groups) == items && forall k | 0 <= k < |groups| :: Fits(size, maxBytes, groups[k])
  }

  /** Every group is closed only because the next item would not fit. */
  ghost predicate Greedy<T>(size: T -> nat, maxBytes: int, groups: seq<seq<T>>) {
    && (forall k | 0 <= k < |groups| :: groups[k] != [])
    && (forall k | 0 <= k < |groups| - 1 :: !Fits(size, maxBytes, groups[k] + [groups[k + 1][0]]))
  }

  lemma {:induction false} FlattenPrefix<T>(groups: seq<seq<T>>, k: nat)
    requires k <= |groups|
    ensures Flatten(groups[..k]) <= Flatten(groups)
    decreases |groups|
  {
    if k < |groups| {
      var front := groups[..|groups| - 1];
      assert front[..k] == groups[..k];
      FlattenPrefix(front, k);
    } else {
      assert groups[..k] == groups;
    }
  }

  lemma {:induction false} BytesSlice<T>(size: T -> nat, items: seq<T>, part: seq<T>, lo: nat)
    requires lo + |part| <= |items| && items[lo..lo + |part|] == part
    ensures Bytes(size, part) <= Bytes(size, items)
    decreases |items|
  {
    if part != [] {
      var front := items[..|items| - 1];
      if lo + |part| < |items| {
        assert front[lo..lo + |part|] == part;
        BytesSlice(size, front, part, lo);
      } else {
        var shorter := part[..|part| - 1];
        assert front[lo..lo + |shorter|] == shorter by {
          assert shorter == items[lo..lo + |part|][..|part| - 1];
        }
        BytesSlice(size, front, shorter, lo);
        assert part[|part| - 1] == items[|items| - 1];
      }
    }
  }

  /** How many items the first `k` groups hold. */
  function Reach<T>(groups: seq<seq<T>>, k: nat): nat
    requires k <= |groups|
  {
    |Flatten(groups[..k])|
  }

  lemma ReachNext<T>(groups: seq<seq<T>>, k: nat)
    requires k < |groups|
    ensures Reach(groups, k + 1) == Reach(groups, k) + |groups[k]|
    ensures Reach(groups, k + 1) <= |Flatten(groups)|
    ensures Flatten(groups)[Reach(groups, k)..Reach(groups, k + 1)] == groups[k]
  {
    assert groups[..k + 1][..k] == groups[..k] && groups[..k + 1][k] == groups[k];
    FlattenPrefix(groups, k + 1);
    var upTo := Flatten(groups[..k + 1]);
    assert upTo == Flatten(groups[..k]) + groups[k];
    assert Flatten(groups)[..|upTo|] == upTo;
  }

  /** A greedy split is never behind another one. */
  lemma {:induction false} GreedyIsAhead<T>(size: T -> nat, maxBytes: int, items: seq<T>, groups: seq<seq<T>>,
                                            other: seq<seq<T>>, k: nat)
    requires IsSplit(size, maxBytes, items, groups) && Greedy(size, maxBytes, groups)
    requires IsSplit(size, maxBytes, items, other)
    requires k <= |groups| && k <= |other|
    ensures Reach(groups, k) >= Reach(other, k)
    decreases k
  {
    if k > 0 {
      GreedyIsAhead(size, maxBytes, items, groups, other, k - 1);
      ReachNext(groups, k - 1);
      ReachNext(other, k - 1);
      if k < |groups| && Reach(other, k) > Reach(groups, k) {
        Overfull(size, maxBytes, items, groups, other, k - 1);
      } else if k == |groups| {
        assert groups[..k] == groups;
      }
    }
  }

  /** A group that holds a greedy group and the item after it does not fit. */
  lemma Overfull<T>(size: T -> nat, maxBytes: int, items: seq<T>, groups: seq<seq<T>>, other: seq<seq<T>>, k: nat)
    requires IsSplit(size, maxBytes, items, groups) && Greedy(size, maxBytes, groups)
    requires IsSplit(size, maxBytes, items, other)
    requires k + 1 < |groups| && k < |other|
    requires Reach(groups, k) >= Reach(other, k)
    ensures Reach(other, k + 1) <= Reach(groups, k + 1)
  {
    ReachNext(groups, k);
    ReachNext(groups, k + 1);
    ReachNext(other, k);
    assert Fits(size, maxBytes, other[k]) && !Fits(size, maxBytes, groups[k] + [groups[k + 1][0]]);
    if Reach(other, k + 1) > Reach(groups, k + 1) {
      var lo, hi := Reach(groups, k), Reach(groups, k + 1);
      var part := groups[k] + [groups[k + 1][0]];
      assert items[lo..hi] == groups[k] && items[hi] == groups[k + 1][0] by {
        assert items[hi..Reach(groups, k + 2)][0] == groups[k + 1][0];
      }
      assert items[lo..hi + 1] == part;
      var at := lo - Reach(other, k);
      SliceOfSlice(items, Reach(other, k), Reach(other, k + 1), at, at + |part|);
      BytesSlice(size, other[k], part, at);
    }
  }

  /** No split of the items has fewer groups than a greedy one. */
  lemma GreedyIsFewest<T>(size: T -> nat, maxBytes: int, items: seq<T>, groups: seq<seq<T>>, other: seq<seq<T>>)
    requires IsSplit(size, maxBytes, items, groups) && Greedy(size, maxBytes, groups)
    requires IsSplit(size, maxBytes, items, other)
    ensures |groups| <= |other|
  {
    if |other| < |groups| {
      var m := |other|;
      GreedyIsAhead(size, maxBytes, items, groups, other, m);
      assert other[..m] == other;
      ReachNext(groups, m);
    }
  }

  /** What the loop keeps: the closed groups and the open one are a greedy split
      of the items seen. */
  ghost predicate Progress<T>(size: T -> nat, maxBytes: int, items: seq<T>, groups: seq<seq<T>>, current: seq<T>,
                              i: nat) {
    && i <= |items| && (i == 0 ==> groups == [] && current == []) && (i > 0 ==> current != [])
    && Flatten(groups) + current == items[..i]
    && Fits(size, maxBytes, current) && (forall k | 0 <= k < |groups| :: Fits(size, maxBytes, groups[k]))
    && (current != [] ==> Greedy(size, maxBytes, groups + [current]))
  }

  lemma Closing<T>(size: T -> nat, maxBytes: int, items: seq<T>, groups: seq<seq<T>>, current: seq<T>, i: nat)
    requires i < |items| && Progress(size, maxBytes, items, groups, current, i) && current != []
    requires Bytes(size, current) + size(items[i]) > maxBytes
    ensures Progress(size, maxBytes, items, groups + [current], [items[i]], i + 1)
  {
    var more, all := groups + [current], groups + [current] + [[items[i]]];
    assert more[..|groups|] == groups;
    assert items[..i + 1] == items[..i] + [items[i]];
    assert (current + [items[i]])[..|current|] == current;
    assert forall k | 0 <= k < |more| :: all[k] == more[k];
    hide Flatten, Bytes;
    assert Greedy(size, maxBytes, more);
  }

  lemma Growing<T>(size: T -> nat, maxBytes: int, items: seq<T>, groups: seq<seq<T>>, current: seq<T>, i: nat)
    requires i < |items| && Progress(size, maxBytes, items, groups, current, i)
    requires current == [] || Bytes(size, current) + size(items[i]) <= maxBytes
    ensures Progress(size, maxBytes, items, groups, current + [items[i]], i + 1)
  {
    var before, after := groups + [current], groups + [current + [items[i]]];
    assert items[..i + 1] == items[..i] + [items[i]];
    assert (current + [items[i]])[..|current|] == current;
    assert forall k | 0 <= k < |groups| :: before[k] == after[k];
    hide Flatten;
    if current != [] {
      assert Greedy(size, maxBytes, before);
      forall k | 0 <= k < |after| - 1 ensures !Fits(size, maxBytes, after[k] + [after[k + 1][0]]) {
        assert before[k + 1][0] == after[k + 1][0];
      }
    }
  }

  lemma Closed<T>(size: T -> nat, maxBytes: int, items: seq<T>, groups: seq<seq<T>>, current: seq<T>)
    requires items != [] && Progress(size, maxBytes, items, groups, current, |items|)
    ensures IsSplit(size, maxBytes, items, groups + [current]) && Greedy(size, maxBytes, groups + [current])
  {
    assert (groups + [current])[..|groups|] == groups && items[..|items|] == items;
  }

  lemma BytesGrow<T>(size: T -> nat, items: seq<T>, item: T)
    ensures Bytes(size, items + [item]) == Bytes(size, items) + size(item)
  {
    assert (items + [item])[..|items|] == items;
  }

  /** Groups of at most `maxBytes` or one item, as few as possible; at least one,
      and never an error. */
  method SplitBySize<T>(size: T -> nat, items: seq<T>, maxBytes: int) returns (r: Result<seq<seq<T>>>)
    ensures r.Ok? && r.value != []
    ensures IsSplit(size, maxBytes, items, r.value)
    ensures items == [] ==> r.value == [[]]
    ensures items != [] ==> Greedy(size, maxBytes, r.value)
  {
    if |items| == 0 {
      return Ok([[]]);
    }
    hide Progress, Fits;
    var groups: seq<seq<T>> := [];
    var current: seq<T> := [];
    var currentBytes: nat := 0;
    NotStarted(size, maxBytes, items);
    var i := 0;
    while i < |items|
      invariant 0 <= i <= |items|
      invariant Progress(size, maxBytes, items, groups, current, i) && currentBytes == Bytes(size, current)
    {
      var itemBytes := size(items[i]);
      BytesGrow(size, current, items[i]);
      BytesGrow(size, [], items[i]);
      assert [] + [items[i]] == [items[i]];
      if |current| > 0 && currentBytes + itemBytes > maxBytes {
        Closing(size, maxBytes, items, groups, current, i);
        groups := groups + [current];
        current := [];
        currentBytes := 0;
      } else {
        Growing(size, maxBytes, items, groups, current, i);
      }
      current := current + [items[i]];
      currentBytes := currentBytes + itemBytes;
      i := i + 1;
    }
    Closed(size, maxBytes, items, groups, current);
    groups := groups + [current];
    i := 1;
    while i < |groups| {
      if |groups[i]| == 0 {
        return Err;
      }
      i := i + 1;
    }
    r := Ok(groups);
  }

  lemma NotStarted<T>(size: T -> nat, maxBytes: int, items: seq<T>)
    ensures Progress(size, maxBytes, items, [], [], 0)
  {
  }
}
