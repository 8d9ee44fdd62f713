/** Sorting as the source's `sort.Slice` and `slices.Sort` calls promise it: a
    permutation in ascending order, which is unique when no two elements tie. */
module Sorting {

  ghost predicate TotalPreorder<T(!new)>(leq: (T, T) -> bool) {
    && (forall x, y :: leq(x, y) || leq(y, x))
    && (forall x, y, z :: leq(x, y) && leq(y, z) ==> leq(x, z))
  }

  ghost predicate Sorted<T(!new)>(leq: (T, T) -> bool, s: seq<T>) {
    forall i, j :: 0 <= i < j < |s| ==> leq(s[i], s[j])
  }

  function Insert<T>(leq: (T, T) -> bool, x: T, s: seq<T>): (r: seq<T>)
    ensures |r| == |s| + 1
    ensures multiset(r) == multiset(s) + multiset{x}
  {
    if s == [] then [x]
    else if leq(x, s[0]) then [x] + s
    else
      assert s == [s[0]] + s[1..];
      [s[0]] + Insert(leq, x, s[1..])
  }

  function Sort<T>(leq: (T, T) -> bool, s: seq<T>): (r: seq<T>)
    ensures |r| == |s|
    ensures multiset(r) == multiset(s)
  {
    if s == [] then []
    else
      assert s == [s[0]] + s[1..];
      Insert(leq, s[0], Sort(leq, s[1..]))
  }

  lemma {:induction false} InsertSorted<T(!new)>(leq: (T, T) -> bool, x: T, s: seq<T>)
    requires TotalPreorder(leq) && Sorted(leq, s)
    ensures Sorted(leq, Insert(leq, x, s))
  {
    if s != [] && !leq(x, s[0]) {
      InsertSorted(leq, x, s[1..]);
      var t := Insert(leq, x, s[1..]);
      forall y | y in t ensures leq(s[0], y) {
        assert y in multiset(t);
        assert y == x || y in s[1..];
      }
    }
  }

  lemma {:induction false} SortSorted<T(!new)>(leq: (T, T) -> bool, s: seq<T>)
    requires TotalPreorder(leq)
    ensures Sorted(leq, Sort(leq, s))
  {
    if s != [] {
      SortSorted(leq, s[1..]);
      InsertSorted(leq, s[0], Sort(leq, s[1..]));
    }
  }

  lemma SameElements<T>(s: seq<T>, t: seq<T>)
    requires multiset(s) == multiset(t)
    ensures |s| == |t|
    ensures forall x :: x in s <==> x in t
  {
    assert |multiset(s)| == |multiset(t)|;
    forall x ensures x in s <==> x in t {
      assert x in s <==> x in multiset(s);
      assert x in t <==> x in multiset(t);
    }
  }

  /** Two ascending arrangements of the same elements are equal when no two
      distinct elements tie. */
  lemma {:induction false} SortedUnique<T(!new)>(leq: (T, T) -> bool, s: seq<T>, t: seq<T>)
    requires Sorted(leq, s) && Sorted(leq, t)
    requires multiset(s) == multiset(t)
    requires forall x, y :: x in s && y in s && leq(x, y) && leq(y, x) ==> x == y
    ensures s == t
  {
    SameElements(s, t);
    if s != [] {
      SmallestFirst(leq, s, t);
      SameRest(s, t);
      SortedUnique(leq, s[1..], t[1..]);
      assert s == [s[0]] + s[1..] && t == [s[0]] + t[1..];
    }
  }

  lemma SameRest<T>(s: seq<T>, t: seq<T>)
    requires multiset(s) == multiset(t) && s != [] && t != [] && s[0] == t[0]
    ensures multiset(s[1..]) == multiset(t[1..])
  {
    assert s == [s[0]] + s[1..] && t == [s[0]] + t[1..];
    assert multiset(s[1..]) == multiset(s) - multiset{s[0]};
    assert multiset(t[1..]) == multiset(t) - multiset{s[0]};
  }

  lemma SmallestFirst<T(!new)>(leq: (T, T) -> bool, s: seq<T>, t: seq<T>)
    requires Sorted(leq, s) && Sorted(leq, t) && s != [] && t != []
    requires t[0] in s && s[0] in t
    requires forall x, y :: x in s && y in s && leq(x, y) && leq(y, x) ==> x == y
    ensures s[0] == t[0]
  {
    var i :| 0 <= i < |s| && s[i] == t[0];
    var j :| 0 <= j < |t| && t[j] == s[0];
    if i > 0 && j > 0 {
      assert leq(s[0], s[i]) && leq(t[0], t[j]);
    }
  }

  ghost predicate NoDuplicates<T>(list: seq<T>) {
    forall i, j | 0 <= i < j < |list| :: list[i] != list[j]
  }

  lemma TwiceListed<T>(list: seq<T>, i: nat, j: nat)
    requires i < j < |list| && list[i] == list[j]
    ensures multiset(list)[list[i]] >= 2
  {
    assert list == list[..j] + list[j..] && list[i] in list[..j] && list[j] in list[j..];
  }

  lemma SortingKeepsDistinct<T>(items: seq<T>, sorted: seq<T>)
    requires NoDuplicates(items) && multiset(sorted) == multiset(items)
    ensures NoDuplicates(sorted)
  {
    forall i, j | 0 <= i < j < |sorted| ensures sorted[i] != sorted[j] {
      if sorted[i] == sorted[j] {
        TwiceListed(sorted, i, j);
        OnceEach(items, sorted[i]);
      }
    }
  }

  lemma {:induction false} OnceEach<T>(items: seq<T>, n: T)
    requires NoDuplicates(items)
    ensures multiset(items)[n] == if n in items then 1 else 0
  {
    if items != [] {
      assert items == [items[0]] + items[1..];
      OnceEach(items[1..], n);
      if items[0] == n {
        forall k | 0 <= k < |items[1..]| ensures items[1..][k] != n {
          assert items[0] != items[k + 1];
        }
        assert n !in items[1..];
        assert multiset(items[1..])[n] == 0;
      }
    }
  }

  /** Two lists of the same members, none twice, are arrangements of each other. */
  lemma SameMembers<T>(s: seq<T>, t: seq<T>)
    requires NoDuplicates(s) && NoDuplicates(t) && forall n :: n in s <==> n in t
    ensures multiset(s) == multiset(t)
  {
    forall n ensures multiset(s)[n] == multiset(t)[n] {
      OnceEach(s, n);
      OnceEach(t, n);
    }
  }

  lemma {:induction false} DistinctCount<T>(list: seq<T>, items: set<T>)
    requires NoDuplicates(list) && forall n | n in list :: n in items
    ensures |list| <= |items|
    ensures |list| == |items| ==> forall n | n in items :: n in list
  {
    if list != [] {
      var first, rest := list[0], list[1..];
      assert first in list;
      forall n | n in rest ensures n in items - {first} {
        var k :| 0 <= k < |rest| && rest[k] == n;
        assert list[k + 1] == n && list[0] != list[k + 1];
        assert list[k + 1] in list;
      }
      DistinctCount(rest, items - {first});
      assert list == [first] + rest;
    }
  }

  function Map<T, U>(f: T -> U, s: seq<T>): (r: seq<U>)
    ensures |r| == |s| && forall i | 0 <= i < |s| :: r[i] == f(s[i])
  {
    seq(|s|, i requires 0 <= i < |s| => f(s[i]))
  }

  lemma MapAround<T, U>(f: T -> U, s: seq<T>, x: T, t: seq<T>)
    ensures Map(f, s + [x] + t) == Map(f, s) + [f(x)] + Map(f, t)
    ensures Map(f, s + t) == Map(f, s) + Map(f, t)
  {
  }

  lemma TakeOut<T>(s: seq<T>, x: T) returns (front: seq<T>, back: seq<T>)
    requires x in s
    ensures s == front + [x] + back && multiset(front + back) == multiset(s) - multiset{x}
  {
    var j :| 0 <= j < |s| && s[j] == x;
    front, back := s[..j], s[j + 1..];
    assert s == front + [x] + back;
  }

  /** Rearranging a list rearranges its image. */
  lemma {:induction false} MapRearranged<T, U>(f: T -> U, s: seq<T>, t: seq<T>)
    requires multiset(s) == multiset(t)
    ensures multiset(Map(f, s)) == multiset(Map(f, t))
    decreases |s|
  {
    SameElements(s, t);
    if s != [] {
      assert s == [] + [s[0]] + s[1..];
      assert multiset(s[1..]) == multiset(s) - multiset{s[0]};
      var front, back := TakeOut(t, s[0]);
      MapRearranged(f, s[1..], front + back);
      hide Map;
      MapAround(f, [], s[0], s[1..]);
      MapAround(f, front, s[0], back);
      NoImage(f);
    }
  }

  lemma NoImage<T, U>(f: T -> U)
    ensures Map(f, []) == []
  {
  }
}
