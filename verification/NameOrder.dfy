/** Arranging a set of targets by their names. */
module NameOrder {
  import opened ByteStrings

  /** `list` holds `items` in the strict order of their names. */
  ghost predicate InOrder<T(!new)>(name: T -> Text, items: set<T>, list: seq<T>) {
    && (forall x :: x in list <==> x in items)
    && (forall i, j | 0 <= i < j < |list| :: Less(name(list[i]), name(list[j])))
  }

  lemma NothingToOrder<T(!new)>(name: T -> Text, items: set<T>, list: seq<T>)
    requires InOrder(name, items, list)
    ensures list == [] <==> items == {}
  {
    if list != [] {
      var first := list[0];
      assert first in list;
    }
  }

  lemma TailInOrder<T(!new)>(name: T -> Text, items: set<T>, list: seq<T>)
    requires InOrder(name, items, list) && list != []
    ensures InOrder(name, items - {list[0]}, list[1..])
  {
    assert list == [list[0]] + list[1..];
    LessIrreflexive(name(list[0]));
    forall i | 0 <= i < |list[1..]| ensures list[1..][i] != list[0] {
      assert Less(name(list[0]), name(list[i + 1]));
    }
  }

  lemma SameFirst<T(!new)>(name: T -> Text, items: set<T>, list: seq<T>, list': seq<T>)
    requires InOrder(name, items, list) && InOrder(name, items, list') && list != [] && list' != []
    ensures list[0] == list'[0]
  {
    var first, first' := list[0], list'[0];
    assert first in list && first in items && first in list';
    assert first' in list' && first' in items && first' in list;
    var i :| 0 <= i < |list| && list[i] == first';
    var j :| 0 <= j < |list'| && list'[j] == first;
    if i > 0 && j > 0 {
      LessTransitive(name(first), name(first'), name(first));
      LessIrreflexive(name(first));
    }
  }

  /** The order of a set by name is unique. */
  lemma {:induction false} InOrderUnique<T(!new)>(name: T -> Text, items: set<T>, list: seq<T>, list': seq<T>)
    requires InOrder(name, items, list) && InOrder(name, items, list')
    ensures list == list'
    decreases |list|
  {
    NothingToOrder(name, items, list);
    NothingToOrder(name, items, list');
    if list != [] {
      SameFirst(name, items, list, list');
      TailInOrder(name, items, list);
      TailInOrder(name, items, list');
      InOrderUnique(name, items - {list[0]}, list[1..], list'[1..]);
      assert list == [list[0]] + list[1..] && list' == [list'[0]] + list'[1..];
    }
  }

  ghost function Ordered<T(!new)>(name: T -> Text, items: set<T>): seq<T> {
    if exists list :: InOrder(name, items, list) then (var list :| InOrder(name, items, list); list) else []
  }

  lemma OrderedIs<T(!new)>(name: T -> Text, items: set<T>, list: seq<T>)
    requires InOrder(name, items, list)
    ensures Ordered(name, items) == list
  {
    InOrderUnique(name, items, list, Ordered(name, items));
  }

  ghost predicate DistinctNames<T(!new)>(name: T -> Text, items: set<T>) {
    forall x, y | x in items && y in items && name(x) == name(y) :: x == y
  }

  /** Distinctly named items can be ordered. */
  lemma {:induction false} OrderExists<T(!new)>(name: T -> Text, items: set<T>)
    requires DistinctNames(name, items)
    ensures InOrder(name, items, Ordered(name, items))
  {
    var list := SomeOrder(name, items);
    OrderedIs(name, items, list);
  }

  lemma {:induction false} SomeOrder<T(!new)>(name: T -> Text, items: set<T>) returns (list: seq<T>)
    requires DistinctNames(name, items)
    ensures InOrder(name, items, list)
    decreases items
  {
    if items == {} {
      list := [];
    } else {
      var m := SmallestName(name, items);
      var rest := SomeOrder(name, items - {m});
      list := [m] + rest;
      forall i, j | 0 <= i < j < |list| ensures Less(name(list[i]), name(list[j])) {
        if i == 0 {
          assert rest[j - 1] in rest;
        }
      }
    }
  }

  lemma {:induction false} SmallestName<T(!new)>(name: T -> Text, items: set<T>) returns (m: T)
    requires DistinctNames(name, items) && items != {}
    ensures m in items && forall x | x in items && x != m :: Less(name(m), name(x))
    decreases items
  {
    m :| m in items;
    if items != {m} {
      var k := SmallestName(name, items - {m});
      LessTotal(name(m), name(k));
      if Less(name(k), name(m)) {
        m := k;
      } else {
        assert name(m) != name(k);
        forall x | x in items && x != m ensures Less(name(m), name(x)) {
          if x != k {
            LessTransitive(name(m), name(k), name(x));
          }
        }
      }
    }
  }

  /** Mapping an ordered list through names that keep their order. */
  lemma OrderMaps<T(!new), U(!new)>(name: T -> Text, name': U -> Text, f: T -> U, items: set<T>, items': set<U>,
                    list: seq<T>, list': seq<U>)
    requires InOrder(name, items, list)
    requires |list'| == |list| && forall i | 0 <= i < |list| :: list'[i] == f(list[i])
    requires forall x | x in items :: name'(f(x)) == name(x)
    requires forall y :: y in items' <==> exists x :: x in items && f(x) == y
    ensures InOrder(name', items', list')
  {
    forall y ensures y in list' <==> y in items' {
      if y in list' {
        var i :| 0 <= i < |list'| && list'[i] == y;
        assert list[i] in list;
      }
      if y in items' {
        var x :| x in items && f(x) == y;
        assert x in list;
        var i :| 0 <= i < |list| && list[i] == x;
        assert list'[i] == y;
      }
    }
    forall i, j | 0 <= i < j < |list'| ensures Less(name'(list'[i]), name'(list'[j])) {
      assert list[i] in list && list[j] in list;
    }
  }
}
