/** Topological roots and the depth-first order of targets, dependencies first,
    as the full hasher and the incremental graph both use them. */
module Toposort {
  import opened ByteStrings
  import opened Sorting
  import opened TextSort

  /** The dependency list of every target, by name. */
  type Table = map<Text, seq<Text>>

  /** `t` is `g` with lists rearranged. */
  ghost predicate Rearranged(g: Table, t: Table) {
    t.Keys == g.Keys && forall n | n in g :: multiset(t[n]) == multiset(g[n])
  }

  ghost predicate DependsOn(g: Table, n: Text, d: Text) {
    n in g && d in g[n]
  }

  lemma DepsAreEdges(g: Table, t: Table, name: Text, deps: seq<Text>)
    requires Rearranged(g, t) && name in t && t[name] == deps
    ensures forall d :: DependsOn(g, name, d) <==> d in deps
  {
    SameElements(g[name], deps);
  }

  /** `b` is `n` dependency steps below `a`. */
  ghost predicate Steps(g: Table, a: Text, b: Text, n: nat)
    decreases n
  {
    if n == 0 then a == b else exists c :: Steps(g, a, c, n - 1) && DependsOn(g, c, b)
  }

  ghost predicate Below(g: Table, a: Text, b: Text) {
    exists n: nat :: Steps(g, a, b, n)
  }

  lemma BelowItself(g: Table, a: Text)
    ensures Below(g, a, a)
  {
    assert Steps(g, a, a, 0);
  }

  lemma BelowDep(g: Table, a: Text, c: Text, b: Text)
    requires Below(g, a, c) && DependsOn(g, c, b)
    ensures Below(g, a, b)
  {
    var n: nat :| Steps(g, a, c, n);
    assert Steps(g, a, b, n + 1);
  }

  lemma {:induction false} BelowThrough(g: Table, a: Text, b: Text, c: Text, n: nat)
    requires DependsOn(g, a, b) && Steps(g, b, c, n)
    ensures Steps(g, a, c, n + 1)
    decreases n
  {
    if n == 0 {
      assert Steps(g, a, a, 0);
    } else {
      var m :| Steps(g, b, m, n - 1) && DependsOn(g, m, c);
      BelowThrough(g, a, b, m, n - 1);
    }
  }

  /** A set closed under dependencies holds all that is below its members. */
  lemma {:induction false} BelowStaysInside(g: Table, s: set<Text>, a: Text, b: Text, n: nat)
    requires a in s && Steps(g, a, b, n)
    requires forall x, d | x in s && DependsOn(g, x, d) :: d in s
    ensures b in s
    decreases n
  {
    if n > 0 {
      var c :| Steps(g, a, c, n - 1) && DependsOn(g, c, b);
      BelowStaysInside(g, s, a, c, n - 1);
    }
  }

  /** `rank` proves the table acyclic: listed dependencies rank lower. */
  ghost predicate Descending(g: Table, rank: map<Text, nat>) {
    && g.Keys <= rank.Keys
    && forall n, d | DependsOn(g, n, d) && d in g :: rank[d] < rank[n]
  }

  /** Every listed dependency of the target at `i` comes before it. */
  ghost predicate DepsFirstAt(g: Table, order: seq<Text>, i: nat)
    requires i < |order|
  {
    forall d | DependsOn(g, order[i], d) && d in g :: d in order[..i]
  }

  ghost predicate DepsFirst(g: Table, order: seq<Text>) {
    forall i | 0 <= i < |order| :: DepsFirstAt(g, order, i)
  }

  /** Listed targets were visited and are listed once. */
  ghost predicate Tidy(g: Table, visited: set<Text>, order: seq<Text>) {
    NoDuplicates(order) && forall n | n in order :: n in visited && n in g
  }

  /** Visited but not yet listed: the targets the walk is inside of. */
  ghost function Open(g: Table, visited: set<Text>, order: seq<Text>): set<Text> {
    set n | n in visited && n in g && n !in order
  }

  /** What visiting `from` adds to `visited` and `order`. */
  ghost predicate Grown(g: Table, from: Text, visited: set<Text>, order: seq<Text>, visited': set<Text>,
                        order': seq<Text>) {
    && visited <= visited' && order <= order'
    && Open(g, visited', order') == Open(g, visited, order)
    && (forall n, d | n in visited' && n !in visited && DependsOn(g, n, d) :: d in visited')
    && (forall n | n in visited' && n !in visited :: Below(g, from, n))
  }

  /** Visiting a dependency of `from` grows the walk from `from`. */
  lemma GrownThrough(g: Table, from: Text, dep: Text, v0: set<Text>, o0: seq<Text>, v1: set<Text>, o1: seq<Text>,
                     v2: set<Text>, o2: seq<Text>)
    requires Grown(g, from, v0, o0, v1, o1) && Grown(g, dep, v1, o1, v2, o2) && DependsOn(g, from, dep)
    ensures Grown(g, from, v0, o0, v2, o2)
  {
    forall n | n in v2 && n !in v1 ensures Below(g, from, n) {
      var k: nat :| Steps(g, dep, n, k);
      BelowThrough(g, from, dep, n, k);
    }
  }

  ghost predicate AllAbove(rank: map<Text, nat>, open: set<Text>, bound: nat) {
    forall n | n in open :: n in rank && rank[n] > bound
  }

  lemma VisitedKeeps(g: Table, rank: map<Text, nat>, name: Text, v: set<Text>, o: seq<Text>)
    ensures Grown(g, name, v, o, v, o) && KeepsDepsFirst(g, rank, name, v, o, o)
  {
  }

  lemma MarkingKeepsTidy(g: Table, name: Text, v: set<Text>, o: seq<Text>)
    requires Tidy(g, v, o)
    ensures Tidy(g, v + {name}, o) && Grown(g, name, v + {name}, o, v + {name}, o)
    ensures name !in g ==> Grown(g, name, v, o, v + {name}, o)
  {
    BelowItself(g, name);
    hide Below;
    assert name !in g ==> Open(g, v + {name}, o) == Open(g, v, o);
  }

  lemma SortingInPlace(g: Table, t: Table, name: Text)
    requires Rearranged(g, t)
    ensures g.Keys == t.Keys
    ensures name in t ==> Rearranged(g, t[name := SortTexts(t[name])])
  {
  }

  /** A target is listed once its dependencies are visited. */
  lemma ListingGrows(g: Table, name: Text, v0: set<Text>, o0: seq<Text>, v: set<Text>, o: seq<Text>)
    requires name in g && name !in v0 && Tidy(g, v0, o0) && Tidy(g, v, o) && Grown(g, name, v0 + {name}, o0, v, o)
    requires forall d | DependsOn(g, name, d) :: d in v
    ensures Tidy(g, v, o + [name]) && Grown(g, name, v0, o0, v, o + [name])
  {
    BelowItself(g, name);
    assert name in Open(g, v0 + {name}, o0);
    assert Open(g, v, o + [name]) == Open(g, v, o) - {name};
    assert Open(g, v0, o0) == Open(g, v0 + {name}, o0) - {name};
  }

  /** On an acyclic table, visiting `name` from inside higher-ranked targets
      keeps the list `o0` in dependency order as it becomes `o`. */
  ghost predicate KeepsDepsFirst(g: Table, rank: map<Text, nat>, name: Text, v0: set<Text>, o0: seq<Text>,
                                 o: seq<Text>) {
    Descending(g, rank) && DepsFirst(g, o0) && (name in g ==> AllAbove(rank, Open(g, v0, o0), rank[name])) ==>
      DepsFirst(g, o)
  }

  lemma DepKeepsDepsFirst(g: Table, rank: map<Text, nat>, name: Text, dep: Text, v0: set<Text>, o0: seq<Text>,
                          v: set<Text>, o: seq<Text>, o': seq<Text>)
    requires DependsOn(g, name, dep) && Grown(g, name, v0 + {name}, o0, v, o)
    requires KeepsDepsFirst(g, rank, name, v0, o0, o) && KeepsDepsFirst(g, rank, dep, v, o, o')
    ensures KeepsDepsFirst(g, rank, name, v0, o0, o')
  {
    hide Below, DepsFirst;
  }

  lemma ListingAfterDeps(g: Table, rank: map<Text, nat>, name: Text, v0: set<Text>, o0: seq<Text>, v: set<Text>,
                         o: seq<Text>)
    requires name in g && Grown(g, name, v0 + {name}, o0, v, o)
    requires forall d | DependsOn(g, name, d) :: d in v
    requires KeepsDepsFirst(g, rank, name, v0, o0, o)
    ensures KeepsDepsFirst(g, rank, name, v0, o0, o + [name])
  {
    hide Below;
    var o' := o + [name];
    if Descending(g, rank) && DepsFirst(g, o0) && AllAbove(rank, Open(g, v0, o0), rank[name]) {
      forall i | 0 <= i < |o'| ensures DepsFirstAt(g, o', i) {
        if i < |o| {
          assert DepsFirstAt(g, o, i);
          assert o'[..i] == o[..i];
        } else {
          assert o'[..i] == o;
          forall d | DependsOn(g, name, d) && d in g ensures d in o {
            assert d !in Open(g, v, o);
          }
        }
      }
    }
  }

  // ---- The walk as a function ----

  datatype Trail = Trail(visited: set<Text>, order: seq<Text>)

  /** Visiting `name`: its dependencies in name order, then itself. */
  ghost function Walk(g: Table, w: Trail, name: Text): (r: Trail)
    ensures w.visited <= r.visited
    decreases g.Keys - w.visited, 0
  {
    if name in w.visited then w
    else if name !in g then Trail(w.visited + {name}, w.order)
    else
      var below := WalkAll(g, Trail(w.visited + {name}, w.order), SortTexts(g[name]));
      Trail(below.visited, below.order + [name])
  }

  ghost function WalkAll(g: Table, w: Trail, names: seq<Text>): (r: Trail)
    ensures w.visited <= r.visited
    decreases g.Keys - w.visited, |names| + 1
  {
    if names == [] then w
    else
      var before := WalkAll(g, w, names[..|names| - 1]);
      Walk(g, before, names[|names| - 1])
  }

  /** The walk is stable: it does not depend on the order of the dependency lists. */
  lemma {:induction false} WalkIgnoresListOrder(g: Table, t: Table, w: Trail, name: Text)
    requires Rearranged(g, t)
    ensures Walk(g, w, name) == Walk(t, w, name)
    decreases g.Keys - w.visited, 0
  {
    if name !in w.visited && name in g {
      SortForgetsOrder(g[name], t[name]);
      WalkAllIgnoresListOrder(g, t, Trail(w.visited + {name}, w.order), SortTexts(g[name]));
    }
  }

  lemma {:induction false} WalkAllIgnoresListOrder(g: Table, t: Table, w: Trail, names: seq<Text>)
    requires Rearranged(g, t)
    ensures WalkAll(g, w, names) == WalkAll(t, w, names)
    decreases g.Keys - w.visited, |names| + 1
  {
    if names != [] {
      WalkAllIgnoresListOrder(g, t, w, names[..|names| - 1]);
      WalkIgnoresListOrder(g, t, WalkAll(g, w, names[..|names| - 1]), names[|names| - 1]);
    }
  }

  lemma WalkedOneMore(g: Table, w: Trail, names: seq<Text>, name: Text)
    ensures WalkAll(g, w, names + [name]) == Walk(g, WalkAll(g, w, names), name)
    ensures WalkAll(g, w, []) == w
  {
    assert (names + [name])[..|names|] == names;
  }

  lemma WalkedTarget(g: Table, t: Table, w: Trail, name: Text)
    requires Rearranged(g, t)
    ensures name in w.visited ==> Walk(g, w, name) == w
    ensures name !in w.visited && name !in t ==> Walk(g, w, name) == Trail(w.visited + {name}, w.order)
    ensures name !in w.visited && name in t ==>
      var below := WalkAll(g, Trail(w.visited + {name}, w.order), SortTexts(t[name]));
      Walk(g, w, name) == Trail(below.visited, below.order + [name])
  {
    if name in t {
      SortForgetsOrder(g[name], t[name]);
    }
  }

  /** What the walk from `roots` has reached, with nothing left open. */
  ghost predicate Reached(g: Table, roots: seq<Text>, visited: set<Text>, order: seq<Text>) {
    && Open(g, visited, order) == {} && (forall n | n in roots :: n in visited)
    && (forall n, d | n in visited && DependsOn(g, n, d) :: d in visited)
    && (forall n | n in visited :: BelowSome(g, roots, n))
  }

  lemma NothingReached(g: Table)
    ensures Rearranged(g, g) && Tidy(g, {}, []) && Reached(g, [], {}, []) && DepsFirst(g, [])
  {
  }

  lemma ReachedOneMore(g: Table, rank: map<Text, nat>, roots: seq<Text>, root: Text, v: set<Text>, o: seq<Text>,
                       v': set<Text>, o': seq<Text>)
    requires Reached(g, roots, v, o) && Grown(g, root, v, o, v', o') && root in v'
    requires KeepsDepsFirst(g, rank, root, v, o, o')
    ensures Reached(g, roots + [root], v', o')
    ensures Descending(g, rank) && DepsFirst(g, o) ==> DepsFirst(g, o')
  {
    hide Below, DepsFirst, Descending;
    var more := roots + [root];
    forall n | n in v' ensures BelowSome(g, more, n) {
      if n in v {
        var k :| 0 <= k < |roots| && Below(g, roots[k], n);
        assert more[k] == roots[k];
      } else {
        assert more[|roots|] == root && Below(g, root, n);
      }
    }
  }

  lemma ReachedIsBelow(g: Table, roots: seq<Text>, visited: set<Text>, order: seq<Text>)
    requires Reached(g, roots, visited, order) && Tidy(g, visited, order)
    ensures forall n :: n in visited <==> BelowSome(g, roots, n)
    ensures forall n :: n in order <==> n in g && BelowSome(g, roots, n)
  {
    hide Steps;
    forall n | BelowSome(g, roots, n) ensures n in visited {
      var k :| 0 <= k < |roots| && Below(g, roots[k], n);
      assert roots[k] in roots;
      var m: nat :| Steps(g, roots[k], n, m);
      BelowStaysInside(g, visited, roots[k], n, m);
    }
    forall n | n in visited && n in g ensures n in order {
      assert n !in Open(g, visited, order);
    }
  }

  class Sorter {
    var table: Table
    var visited: set<Text>
    var order: seq<Text>

    constructor (table: Table)
      ensures this.table == table && visited == {} && order == []
    {
      this.table, visited, order := table, {}, [];
    }

    method Visit(name: Text, ghost g: Table, ghost rank: map<Text, nat>)
      requires Rearranged(g, table) && Tidy(g, visited, order)
      modifies this
      ensures Rearranged(g, table) && Tidy(g, visited, order)
      ensures old(visited) + {name} <= visited && old(order) <= order
      ensures Grown(g, name, old(visited), old(order), visited, order)
      ensures table.Keys == old(table.Keys)
      ensures forall n | n in old(visited) && n in old(table) :: table[n] == old(table)[n]
      ensures KeepsDepsFirst(g, rank, name, old(visited), old(order), order)
      ensures Trail(visited, order) == Walk(g, Trail(old(visited), old(order)), name)
      decreases table.Keys - visited
    {
      hide *;
      WalkedTarget(g, table, Trail(visited, order), name);
      if name in visited {
        VisitedKeeps(g, rank, name, visited, order);
        return;
      }
      VisitedKeeps(g, rank, name, visited, order);
      MarkingKeepsTidy(g, name, visited, order);
      visited := visited + {name};
      SortingInPlace(g, table, name);
      if name !in table {
        return;
      }
      var deps := SortTexts(table[name]);
      table := table[name := deps];
      var i := 0;
      WalkedOneMore(g, Trail(visited, order), [], name);
      assert deps[..0] == [];
      while i < |deps|
        invariant 0 <= i <= |deps|
        invariant Trail(visited, order) == WalkAll(g, Trail(old(visited) + {name}, old(order)), deps[..i])
        invariant table.Keys == old(table.Keys)
        invariant Rearranged(g, table) && Tidy(g, visited, order) && table[name] == deps
        invariant forall n | n in old(visited) && n in old(table) :: table[n] == old(table)[n]
        invariant old(visited) + {name} <= visited && old(order) <= order
        invariant forall d | d in deps[..i] :: d in visited
        invariant Grown(g, name, old(visited) + {name}, old(order), visited, order)
        invariant KeepsDepsFirst(g, rank, name, old(visited), old(order), order)
      {
        assert deps[i] in deps;
        DepsAreEdges(g, table, name, deps);
        ghost var v, o := visited, order;
        Visit(deps[i], g, rank);
        DepKeepsDepsFirst(g, rank, name, deps[i], old(visited), old(order), v, o, order);
        GrownThrough(g, name, deps[i], old(visited) + {name}, old(order), v, o, visited, order);
        assert deps[..i + 1] == deps[..i] + [deps[i]];
        WalkedOneMore(g, Trail(old(visited) + {name}, old(order)), deps[..i], deps[i]);
        i := i + 1;
      }
      assert deps[..i] == deps;
      DepsAreEdges(g, table, name, deps);
      ListingGrows(g, name, old(visited), old(order), visited, order);
      ListingAfterDeps(g, rank, name, old(visited), old(order), visited, order);
      order := order + [name];
    }

    /** Visits every root in turn. */
    method VisitAll(roots: seq<Text>, ghost rank: map<Text, nat>)
      requires visited == {} && order == []
      modifies this
      ensures Rearranged(old(table), table) && Tidy(old(table), visited, order)
      ensures forall n :: n in order <==> n in old(table) && BelowSome(old(table), roots, n)
      ensures forall n :: n in visited <==> BelowSome(old(table), roots, n)
      ensures Descending(old(table), rank) ==> DepsFirst(old(table), order)
      ensures Trail(visited, order) == WalkAll(old(table), Trail({}, []), roots)
    {
      hide *;
      ghost var g := table;
      var i := 0;
      WalkedOneMore(g, Trail({}, []), [], []);
      assert roots[..0] == [];
      NothingReached(g);
      while i < |roots|
        invariant 0 <= i <= |roots|
        invariant Trail(visited, order) == WalkAll(g, Trail({}, []), roots[..i])
        invariant Rearranged(g, table) && Tidy(g, visited, order)
        invariant Reached(g, roots[..i], visited, order)
        invariant Descending(g, rank) ==> DepsFirst(g, order)
      {
        ghost var v, o := visited, order;
        assert roots[..i + 1] == roots[..i] + [roots[i]];
        WalkedOneMore(g, Trail({}, []), roots[..i], roots[i]);
        Visit(roots[i], g, rank);
        ReachedOneMore(g, rank, roots[..i], roots[i], v, o, visited, order);
        i := i + 1;
      }
      assert roots[..i] == roots;
      ReachedIsBelow(g, roots, visited, order);
    }
  }

  ghost predicate BelowSome(g: Table, roots: seq<Text>, n: Text) {
    exists k :: 0 <= k < |roots| && Below(g, roots[k], n)
  }

  // ---- Roots ----

  /** Nothing in the table depends on `n`. */
  ghost predicate IsRoot(g: Table, n: Text) {
    n in g && forall m :: !DependsOn(g, m, n)
  }

  /** The targets that nothing depends on, in name order. */
  method TopologicalRoots(table: Table) returns (roots: seq<Text>)
    ensures forall n :: n in roots <==> IsRoot(table, n)
    ensures NoDuplicates(roots) && Sorted((a, b) => LessEq(a, b), roots)
  {
    var notRoots: set<Text> := {};
    var left := table.Keys;
    while left != {}
      invariant left <= table.Keys
      invariant forall d :: d in notRoots <==> exists n :: DependsOn(table, n, d) && n !in left
      decreases left
    {
      var n :| n in left;
      notRoots := notRoots + set d | d in table[n];
      left := left - {n};
    }
    assert forall d :: d in notRoots <==> exists n :: DependsOn(table, n, d);
    roots := [];
    left := table.Keys;
    while left != {}
      invariant left <= table.Keys
      invariant forall n :: n in roots <==> n in table && n !in left && n !in notRoots
      invariant NoDuplicates(roots)
      decreases left
    {
      var n :| n in left;
      if n !in notRoots {
        roots := roots + [n];
      }
      left := left - {n};
    }
    SortedTexts(roots);
    SameElements(roots, SortTexts(roots));
    SortingKeepsDistinct(roots, SortTexts(roots));
    roots := SortTexts(roots);
  }

  // ---- Acyclic tables are listed whole ----

  lemma {:induction false} RankBound(names: set<Text>, rank: map<Text, nat>) returns (bound: nat)
    requires names <= rank.Keys
    ensures forall n | n in names :: rank[n] < bound
    decreases names
  {
    bound := 0;
    if names != {} {
      var n :| n in names;
      var rest := RankBound(names - {n}, rank);
      bound := if rank[n] < rest then rest else rank[n] + 1;
    }
  }

  lemma {:induction false} BelowARoot(g: Table, rank: map<Text, nat>, bound: nat, n: Text)
    requires Descending(g, rank) && n in g && forall m | m in g :: rank[m] < bound
    ensures exists r :: IsRoot(g, r) && Below(g, r, n)
    decreases bound - rank[n]
  {
    if IsRoot(g, n) {
      BelowItself(g, n);
    } else {
      var m :| DependsOn(g, m, n);
      BelowARoot(g, rank, bound, m);
      var r :| IsRoot(g, r) && Below(g, r, m);
      BelowDep(g, r, m, n);
    }
  }

  /** From all roots, every target of an acyclic table is reached. */
  lemma AcyclicIsReached(g: Table, rank: map<Text, nat>, roots: seq<Text>, n: Text)
    requires Descending(g, rank) && n in g && forall r | IsRoot(g, r) :: r in roots
    ensures BelowSome(g, roots, n)
  {
    var bound := RankBound(g.Keys, rank);
    BelowARoot(g, rank, bound, n);
    var r :| IsRoot(g, r) && Below(g, r, n);
    var k :| 0 <= k < |roots| && roots[k] == r;
    assert Below(g, roots[k], n);
  }

  ghost predicate BelowARootOf(g: Table, n: Text) {
    exists r :: IsRoot(g, r) && Below(g, r, n)
  }

  lemma BelowSomeRoot(g: Table, roots: seq<Text>, n: Text)
    requires forall r :: r in roots <==> IsRoot(g, r)
    ensures BelowSome(g, roots, n) <==> BelowARootOf(g, n)
  {
    hide Below;
    if BelowSome(g, roots, n) {
      var k :| 0 <= k < |roots| && Below(g, roots[k], n);
      assert roots[k] in roots;
    }
    if BelowARootOf(g, n) {
      var r :| IsRoot(g, r) && Below(g, r, n);
      var k :| 0 <= k < |roots| && roots[k] == r;
    }
  }

  /** The table's roots, in name order. */
  ghost predicate RootList(g: Table, roots: seq<Text>) {
    && (forall n :: n in roots <==> IsRoot(g, n))
    && NoDuplicates(roots) && Sorted((a, b) => LessEq(a, b), roots)
  }

  /** The list the walk from the roots makes. */
  ghost predicate InWalkOrder(g: Table, order: seq<Text>) {
    exists roots :: RootList(g, roots) && order == WalkAll(g, Trail({}, []), roots).order
  }

  lemma OneRootList(roots: seq<Text>, others: seq<Text>)
    requires NoDuplicates(roots) && Sorted((a, b) => LessEq(a, b), roots)
    requires NoDuplicates(others) && Sorted((a, b) => LessEq(a, b), others)
    requires forall n :: n in roots <==> n in others
    ensures roots == others
  {
    SameMembers(roots, others);
    LessEqIsTotalOrder();
    SortedUnique((a, b) => LessEq(a, b), roots, others);
  }

  lemma RootsIgnoreListOrder(g: Table, t: Table, n: Text)
    requires Rearranged(g, t)
    ensures IsRoot(g, n) <==> IsRoot(t, n)
  {
    forall m ensures DependsOn(g, m, n) <==> DependsOn(t, m, n) {
      if m in g {
        SameElements(g[m], t[m]);
      }
    }
  }

  /** Two tables that differ in the order of their lists are listed alike. */
  lemma OrderIsStable(g: Table, t: Table, order: seq<Text>, other: seq<Text>)
    requires Rearranged(g, t) && InWalkOrder(g, order) && InWalkOrder(t, other)
    ensures order == other
  {
    hide IsRoot, Walk, WalkAll;
    var roots :| RootList(g, roots) && order == WalkAll(g, Trail({}, []), roots).order;
    var others :| RootList(t, others) && other == WalkAll(t, Trail({}, []), others).order;
    forall n ensures n in roots <==> n in others {
      RootsIgnoreListOrder(g, t, n);
    }
    OneRootList(roots, others);
    WalkAllIgnoresListOrder(g, t, Trail({}, []), roots);
  }

  /** The order in which the incremental graph upserts a query's targets: every
      target below a root, once, and in an acyclic table every target with its
      dependencies before it. */
  method TopologicalOrder(table: Table, ghost rank: map<Text, nat>) returns (order: seq<Text>)
    ensures NoDuplicates(order)
    ensures forall n :: n in order <==> n in table && BelowARootOf(table, n)
    ensures Descending(table, rank) ==> DepsFirst(table, order) && forall n :: n in order <==> n in table
    ensures InWalkOrder(table, order)
  {
    hide Below, IsRoot, DepsFirst, Walk, WalkAll;
    var roots := TopologicalRoots(table);
    var sorter := new Sorter(table);
    sorter.VisitAll(roots, rank);
    order := sorter.order;
    forall n ensures n in order <==> n in table && BelowARootOf(table, n) {
      BelowSomeRoot(table, roots, n);
    }
    if Descending(table, rank) {
      forall n | n in table ensures n in order {
        AcyclicIsReached(table, rank, roots, n);
      }
    }
  }
}
