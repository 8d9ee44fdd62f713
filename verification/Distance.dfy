/** Reverse-dependency distance, defined without any queue: a node is within
    `k` of the seeds when it is a seed or depends on a node within `k - 1`. */
module Distance {

  /** `deps` lists the dependencies of the nodes a walk may enter; a seed needs
      no entry. */
  ghost predicate Within<V(!new)>(deps: map<V, seq<V>>, seeds: set<V>, n: V, k: nat)
    decreases k
  {
    n in seeds || (n in deps && k > 0 && exists m :: m in deps[n] && Within(deps, seeds, m, k - 1))
  }

  predicate InRange(max: int, k: int) {
    max >= 0 ==> k <= max
  }

  /** `d` is the shortest distance of `n` to a seed, or -1 when no seed is
      within the limit. A negative limit means no limit. */
  ghost predicate IsDistance<V(!new)>(deps: map<V, seq<V>>, seeds: set<V>, max: int, n: V, d: int) {
    if d < 0 then
      d == -1 && forall k: nat | InRange(max, k) :: !Within(deps, seeds, n, k)
    else
      InRange(max, d) && Within(deps, seeds, n, d) && (d > 0 ==> !Within(deps, seeds, n, d - 1))
  }

  lemma WithinStep<V(!new)>(deps: map<V, seq<V>>, seeds: set<V>, n: V, m: V, k: nat)
    requires n in deps && m in deps[n] && Within(deps, seeds, m, k)
    ensures Within(deps, seeds, n, k + 1)
  {
    assert Within(deps, seeds, m, (k + 1) - 1);
  }

  lemma {:induction false} WithinMonotone<V(!new)>(deps: map<V, seq<V>>, seeds: set<V>, n: V, j: nat, k: nat)
    requires j <= k && Within(deps, seeds, n, j)
    ensures Within(deps, seeds, n, k)
    decreases j
  {
    if n !in seeds {
      var m :| m in deps[n] && Within(deps, seeds, m, j - 1);
      WithinMonotone(deps, seeds, m, j - 1, k - 1);
    }
  }

  /** A walk from `n` along listed dependencies that ends at a seed. */
  ghost predicate IsWalk<V(!new)>(deps: map<V, seq<V>>, seeds: set<V>, n: V, path: seq<V>) {
    && path != [] && path[0] == n && path[|path| - 1] in seeds
    && forall i | 0 <= i < |path| - 1 :: path[i] in deps && path[i + 1] in deps[path[i]]
  }

  lemma {:induction false} WalkIsWithin<V(!new)>(deps: map<V, seq<V>>, seeds: set<V>, n: V, path: seq<V>, k: nat)
    requires IsWalk(deps, seeds, n, path) && |path| - 1 <= k
    ensures Within(deps, seeds, n, k)
    decreases |path|
  {
    if |path| > 1 && n !in seeds {
      assert IsWalk(deps, seeds, path[1], path[1..]);
      WalkIsWithin(deps, seeds, path[1], path[1..], k - 1);
    }
  }

  lemma {:induction false} WithinHasWalk<V(!new)>(deps: map<V, seq<V>>, seeds: set<V>, n: V, k: nat)
    returns (path: seq<V>)
    requires Within(deps, seeds, n, k)
    ensures IsWalk(deps, seeds, n, path) && |path| - 1 <= k
    decreases k
  {
    if n in seeds {
      path := [n];
    } else {
      var m :| m in deps[n] && Within(deps, seeds, m, k - 1);
      var rest := WithinHasWalk(deps, seeds, m, k - 1);
      path := [n] + rest;
    }
  }

  /** The distance is the number of steps of a shortest walk to a seed, unless
      there is none or a limit cuts it off; a negative limit is none. */
  lemma DistanceIsShortestWalk<V(!new)>(deps: map<V, seq<V>>, seeds: set<V>, max: int, n: V, d: int)
    requires IsDistance(deps, seeds, max, n, d)
    ensures max >= 0 ==> d <= max
    ensures d >= 0 <==> exists path :: IsWalk(deps, seeds, n, path) && (max < 0 || |path| - 1 <= max)
    ensures d < 0 ==> d == -1
    ensures d >= 0 ==> exists path :: IsWalk(deps, seeds, n, path) && |path| - 1 == d
    ensures d >= 0 ==> forall path | IsWalk(deps, seeds, n, path) :: d <= |path| - 1
  {
    hide Within, IsWalk;
    forall path | IsWalk(deps, seeds, n, path) ensures path != [] && Within(deps, seeds, n, |path| - 1) {
      WalkStarts(deps, seeds, n, path);
      WalkIsWithin(deps, seeds, n, path, |path| - 1);
    }
    if d >= 0 {
      forall path | IsWalk(deps, seeds, n, path) ensures d <= |path| - 1 {
        if |path| - 1 < d {
          WithinMonotone(deps, seeds, n, |path| - 1, d - 1);
        }
      }
      var path := WithinHasWalk(deps, seeds, n, d);
      assert |path| - 1 == d;
    }
  }

  lemma WalkStarts<V(!new)>(deps: map<V, seq<V>>, seeds: set<V>, n: V, path: seq<V>)
    requires IsWalk(deps, seeds, n, path)
    ensures path != []
  {
  }

  lemma DistanceUnique<V(!new)>(deps: map<V, seq<V>>, seeds: set<V>, max: int, n: V, d: int, e: int)
    requires IsDistance(deps, seeds, max, n, d) && IsDistance(deps, seeds, max, n, e)
    ensures d == e
  {
    if 0 <= d < e {
      WithinMonotone(deps, seeds, n, d, e - 1);
    } else if 0 <= e < d {
      WithinMonotone(deps, seeds, n, e, d - 1);
    }
  }

  /** Seeds are at 0 and every recorded value is witnessed by a walk. */
  ghost predicate Sound<V(!new)>(deps: map<V, seq<V>>, seeds: set<V>, max: int, dist: map<V, int>) {
    && (forall s | s in seeds :: s in dist && dist[s] == 0)
    && (forall n | n in dist :: 0 <= dist[n] && InRange(max, dist[n]) && Within(deps, seeds, n, dist[n]))
  }

  /** What a finished breadth-first search leaves behind. `dist` holds the
      visited nodes: every value is witnessed by a walk, and no edge out of a
      visited node could still improve anything. */
  ghost predicate Settled<V(!new)>(deps: map<V, seq<V>>, seeds: set<V>, max: int, dist: map<V, int>) {
    && Sound(deps, seeds, max, dist)
    && (forall n, m | n in deps && m in deps[n] && m in dist && InRange(max, dist[m] + 1) ::
          n in dist && dist[n] <= dist[m] + 1)
  }

  lemma {:induction false} SettledReaches<V(!new)>(deps: map<V, seq<V>>, seeds: set<V>, max: int, dist: map<V, int>,
                                            n: V, k: nat)
    requires Settled(deps, seeds, max, dist)
    requires Within(deps, seeds, n, k) && InRange(max, k)
    ensures n in dist && dist[n] <= k
    decreases k
  {
    if n !in seeds {
      var m :| m in deps[n] && Within(deps, seeds, m, k - 1);
      SettledReaches(deps, seeds, max, dist, m, k - 1);
    }
  }

  /** A finished search holds exactly the shortest distances. */
  lemma SettledIsDistance<V(!new)>(deps: map<V, seq<V>>, seeds: set<V>, max: int, dist: map<V, int>, n: V)
    requires Settled(deps, seeds, max, dist)
    ensures IsDistance(deps, seeds, max, n, if n in dist then dist[n] else -1)
  {
    if n in dist {
      if dist[n] > 0 && Within(deps, seeds, n, dist[n] - 1) {
        SettledReaches(deps, seeds, max, dist, n, dist[n] - 1);
      }
    } else {
      forall k: nat | InRange(max, k) ensures !Within(deps, seeds, n, k) {
        if Within(deps, seeds, n, k) {
          SettledReaches(deps, seeds, max, dist, n, k);
        }
      }
    }
  }

  /** Every edge out of an expanded node has been followed. */
  ghost predicate Expanded<V(!new)>(deps: map<V, seq<V>>, max: int, dist: map<V, int>, done: set<V>) {
    forall n, m | n in deps && m in deps[n] && m in done && m in dist && InRange(max, dist[m] + 1) ::
      n in dist && dist[n] <= dist[m] + 1
  }

  /** The queue is sorted by distance, spans at most one step, and follows
      everything already expanded. */
  ghost predicate InOrder<V(!new)>(dist: map<V, int>, done: set<V>, queue: seq<V>) {
    && (forall n | n in done || n in queue :: n in dist)
    && (forall m, q | m in done && q in queue :: dist[m] <= dist[q])
    && (forall i, j | 0 <= i < j < |queue| :: dist[queue[i]] <= dist[queue[j]] <= dist[queue[i]] + 1)
  }

  /** A breadth-first search in progress. `queue` is what is still to expand, its
      head being expanded now, and `done` what has been expanded. */
  ghost predicate Searching<V(!new)>(deps: map<V, seq<V>>, seeds: set<V>, max: int, dist: map<V, int>, done: set<V>,
                              queue: seq<V>) {
    && (forall n :: n in dist <==> n in done || n in queue)
    && Sound(deps, seeds, max, dist)
    && Expanded(deps, max, dist, done)
    && InOrder(dist, done, queue)
  }

  lemma SearchStart<V(!new)>(deps: map<V, seq<V>>, seeds: set<V>, max: int, queue: seq<V>)
    requires forall s :: s in seeds <==> s in queue
    ensures Searching(deps, seeds, max, map s | s in seeds :: 0, {}, queue)
  {
    var dist := map s | s in seeds :: 0;
    assert forall i | 0 <= i < |queue| :: queue[i] in queue && queue[i] in dist;
  }

  lemma SearchHead<V(!new)>(deps: map<V, seq<V>>, seeds: set<V>, max: int, dist: map<V, int>, done: set<V>,
                     queue: seq<V>)
    requires Searching(deps, seeds, max, dist, done, queue) && queue != []
    ensures queue[0] in dist
  {
    assert queue[0] in queue;
  }

  lemma VisitKeepsOrder<V(!new)>(dist: map<V, int>, done: set<V>, queue: seq<V>, n: V)
    requires InOrder(dist, done, queue) && queue != [] && n !in dist
    requires queue[0] in dist
    ensures InOrder(dist[n := dist[queue[0]] + 1], done, queue + [n])
  {
    var dist', queue' := dist[n := dist[queue[0]] + 1], queue + [n];
    assert forall i | 0 <= i < |queue| :: queue[i] in queue && queue'[i] == queue[i];
    assert queue[0] in queue;
  }

  /** Visiting an unvisited node that depends on the head of the queue. */
  lemma SearchVisit<V(!new)>(deps: map<V, seq<V>>, seeds: set<V>, max: int, dist: map<V, int>, done: set<V>,
                      queue: seq<V>, n: V)
    requires Searching(deps, seeds, max, dist, done, queue) && queue != []
    requires n !in dist && n in deps && queue[0] in deps[n]
    requires queue[0] in dist && InRange(max, dist[queue[0]] + 1)
    ensures Searching(deps, seeds, max, dist[n := dist[queue[0]] + 1], done, queue + [n])
  {
    var d := dist[queue[0]] + 1;
    VisitKeepsOrder(dist, done, queue, n);
    assert Sound(deps, seeds, max, dist[n := d]) by {
      assert Within(deps, seeds, n, d);
    }
    assert Expanded(deps, max, dist[n := d], done);
  }

  lemma PopKeepsOrder<V(!new)>(dist: map<V, int>, done: set<V>, queue: seq<V>)
    requires InOrder(dist, done, queue) && queue != []
    ensures InOrder(dist, done + {queue[0]}, queue[1..])
    ensures forall n | n in done || n in queue :: dist[n] <= dist[queue[0]] + 1
  {
    var cur, rest := queue[0], queue[1..];
    forall q | q in rest ensures q in queue && dist[cur] <= dist[q] <= dist[cur] + 1 {
      var i :| 0 <= i < |rest| && rest[i] == q;
      assert queue[i + 1] == q;
    }
    forall i, j | 0 <= i < j < |rest| ensures dist[rest[i]] <= dist[rest[j]] <= dist[rest[i]] + 1 {
      assert rest[i] == queue[i + 1] && rest[j] == queue[j + 1];
    }
    forall n | n in done || n in queue ensures dist[n] <= dist[cur] + 1 {
      assert cur in queue;
      assert queue == [cur] + rest;
    }
  }

  /** The head has been expanded when every node that depends on it and is in
      range has been visited. */
  lemma SearchPop<V(!new)>(deps: map<V, seq<V>>, seeds: set<V>, max: int, dist: map<V, int>, done: set<V>,
                    queue: seq<V>)
    requires Searching(deps, seeds, max, dist, done, queue) && queue != [] && queue[0] in dist
    requires forall n | n in deps && queue[0] in deps[n] && InRange(max, dist[queue[0]] + 1) :: n in dist
    ensures Searching(deps, seeds, max, dist, done + {queue[0]}, queue[1..])
  {
    hide Sound, InOrder;
    PopKeepsOrder(dist, done, queue);
    forall n ensures n in queue <==> n == queue[0] || n in queue[1..] {
      assert queue == [queue[0]] + queue[1..];
    }
    assert Expanded(deps, max, dist, done + {queue[0]});
  }

  lemma SearchEnd<V(!new)>(deps: map<V, seq<V>>, seeds: set<V>, max: int, dist: map<V, int>, done: set<V>)
    requires Searching(deps, seeds, max, dist, done, [])
    ensures Settled(deps, seeds, max, dist)
  {
  }

  /** Renaming nodes along an injective `f` keeps every walk. */
  ghost predicate Renames<V(!new), W(!new)>(deps: map<V, seq<V>>, seeds: set<V>, deps': map<W, seq<W>>, seeds': set<W>,
                            f: map<V, W>) {
    && (forall v, w | v in f && w in f && f[v] == f[w] :: v == w)
    && (forall v | v in deps :: v in f && (forall u | u in deps[v] :: u in f))
    && (forall v | v in f :: v in deps <==> f[v] in deps')
    && (forall v | v in deps ::
          |deps[v]| == |deps'[f[v]]| && forall i | 0 <= i < |deps[v]| :: deps'[f[v]][i] == f[deps[v][i]])
    && (forall v | v in f :: v in seeds <==> f[v] in seeds')
  }

  lemma {:induction false} RenamingKeepsWithin<V(!new), W(!new)>(
    deps: map<V, seq<V>>, seeds: set<V>, deps': map<W, seq<W>>, seeds': set<W>, f: map<V, W>, v: V, k: nat)
    requires Renames(deps, seeds, deps', seeds', f) && v in f
    ensures Within(deps, seeds, v, k) <==> Within(deps', seeds', f[v], k)
    decreases k
  {
    if v !in seeds && v in deps && k > 0 {
      forall i | 0 <= i < |deps[v]|
        ensures Within(deps, seeds, deps[v][i], k - 1) <==> Within(deps', seeds', deps'[f[v]][i], k - 1)
      {
        RenamingKeepsWithin(deps, seeds, deps', seeds', f, deps[v][i], k - 1);
      }
      if m :| m in deps[v] && Within(deps, seeds, m, k - 1) {
        var i :| 0 <= i < |deps[v]| && deps[v][i] == m;
        assert deps'[f[v]][i] in deps'[f[v]];
      } else if m' :| m' in deps'[f[v]] && Within(deps', seeds', m', k - 1) {
        var i :| 0 <= i < |deps'[f[v]]| && deps'[f[v]][i] == m';
        assert deps[v][i] in deps[v];
      }
    }
  }

  lemma RenamingKeepsDistance<V(!new), W(!new)>(
    deps: map<V, seq<V>>, seeds: set<V>, deps': map<W, seq<W>>, seeds': set<W>, f: map<V, W>, max: int, v: V, d: int)
    requires Renames(deps, seeds, deps', seeds', f) && v in f
    ensures IsDistance(deps, seeds, max, v, d) <==> IsDistance(deps', seeds', max, f[v], d)
  {
    forall k: nat ensures Within(deps, seeds, v, k) <==> Within(deps', seeds', f[v], k) {
      RenamingKeepsWithin(deps, seeds, deps', seeds', f, v, k);
    }
  }

  /** Entering fewer nodes can only lengthen walks. */
  lemma {:induction false} FewerNodesReachLess<V(!new)>(deps: map<V, seq<V>>, all: map<V, seq<V>>, seeds: set<V>, n: V,
                                                 k: nat)
    requires forall v | v in deps :: v in all && all[v] == deps[v]
    requires Within(deps, seeds, n, k)
    ensures Within(all, seeds, n, k)
    decreases k
  {
    if n !in seeds {
      var m :| m in deps[n] && Within(deps, seeds, m, k - 1);
      FewerNodesReachLess(deps, all, seeds, m, k - 1);
    }
  }

  lemma FewerNodesAreFarther<V(!new)>(deps: map<V, seq<V>>, all: map<V, seq<V>>, seeds: set<V>, max: int, n: V, d: int,
                               e: int)
    requires forall v | v in deps :: v in all && all[v] == deps[v]
    requires IsDistance(deps, seeds, max, n, d) && d >= 0
    requires IsDistance(all, seeds, max, n, e)
    ensures 0 <= e <= d
  {
    FewerNodesReachLess(deps, all, seeds, n, d);
    if d < e {
      WithinMonotone(all, seeds, n, d, e - 1);
    }
  }

  // ---- When entering fewer nodes loses nothing ----

  /** The first distance at which `n` is within reach. */
  ghost function LeastWithin<V(!new)>(deps: map<V, seq<V>>, seeds: set<V>, n: V, k: nat): (d: nat)
    requires Within(deps, seeds, n, k)
    ensures d <= k && Within(deps, seeds, n, d) && (d > 0 ==> !Within(deps, seeds, n, d - 1))
  {
    if k > 0 && Within(deps, seeds, n, k - 1) then LeastWithin(deps, seeds, n, k - 1) else k
  }

  ghost function DistanceOf<V(!new)>(deps: map<V, seq<V>>, seeds: set<V>, max: int, n: V): (d: int)
    ensures IsDistance(deps, seeds, max, n, d)
  {
    if k: nat :| InRange(max, k) && Within(deps, seeds, n, k) then LeastWithin(deps, seeds, n, k) else -1
  }

  ghost predicate AreDistances<V(!new)>(deps: map<V, seq<V>>, seeds: set<V>, max: int, dist: map<V, int>) {
    forall n | n in dist :: IsDistance(deps, seeds, max, n, dist[n])
  }

  /** Every node that is some way off has a dependency one step nearer. */
  ghost predicate StepsDown<V(!new)>(deps: map<V, seq<V>>, dist: map<V, int>) {
    forall n | n in deps && n in dist && dist[n] > 0 :: exists m :: m in deps[n] && m in dist && dist[m] == dist[n] - 1
  }

  /** A node at distance `k` depends on one at distance `k - 1`. */
  lemma OneStepNearer<V(!new)>(deps: map<V, seq<V>>, seeds: set<V>, max: int, n: V, k: nat) returns (m: V)
    requires IsDistance(deps, seeds, max, n, k) && k > 0
    ensures n in deps && m in deps[n] && (m in deps || m in seeds) && IsDistance(deps, seeds, max, m, k - 1)
  {
    m :| m in deps[n] && Within(deps, seeds, m, k - 1);
    if k > 1 {
      NoShortCut(deps, seeds, n, m, k - 2);
    }
  }

  lemma NoShortCut<V(!new)>(deps: map<V, seq<V>>, seeds: set<V>, n: V, m: V, j: nat)
    requires n in deps && m in deps[n]
    ensures Within(deps, seeds, m, j) ==> Within(deps, seeds, n, j + 1)
  {
    if Within(deps, seeds, m, j) {
      WithinStep(deps, seeds, n, m, j);
    }
  }

  lemma {:induction false} StepsDownReaches<V(!new)>(deps: map<V, seq<V>>, all: map<V, seq<V>>, seeds: set<V>, max: int,
                                              fast: map<V, int>, n: V)
    requires AreDistances(all, seeds, max, fast) && StepsDown(deps, fast)
    requires n in fast && fast[n] >= 0 && fast.Keys == deps.Keys + seeds
    ensures Within(deps, seeds, n, fast[n])
    decreases fast[n]
  {
    if fast[n] > 0 {
      var m :| m in deps[n] && m in fast && fast[m] == fast[n] - 1;
      StepsDownReaches(deps, all, seeds, max, fast, m);
      WithinStep(deps, seeds, n, m, fast[m]);
    }
  }

  /** Walks that may enter only the nodes of `deps` are as short as walks that
      may enter all exactly when every node some way off, by the short walks, has
      an entered dependency or a seed among its dependencies one step nearer. */
  lemma RestrictionKeepsDistances<V(!new)>(deps: map<V, seq<V>>, all: map<V, seq<V>>, seeds: set<V>, max: int,
                                    fast: map<V, int>, slow: map<V, int>)
    requires forall v | v in deps :: v in all && all[v] == deps[v]
    requires fast.Keys == slow.Keys == deps.Keys + seeds
    requires AreDistances(all, seeds, max, fast) && AreDistances(deps, seeds, max, slow)
    ensures fast == slow <==> StepsDown(deps, fast)
  {
    hide IsDistance, Within;
    if fast == slow {
      forall n | n in deps && n in fast && fast[n] > 0
        ensures exists m :: m in deps[n] && m in fast && fast[m] == fast[n] - 1
      {
        var m := OneStepNearer(deps, seeds, max, n, slow[n]);
        DistanceUnique(deps, seeds, max, m, slow[m], slow[n] - 1);
      }
    }
    if StepsDown(deps, fast) {
      forall n | n in fast ensures fast[n] == slow[n] {
        DistanceRange(deps, seeds, max, n, slow[n]);
        DistanceRange(all, seeds, max, n, fast[n]);
        if slow[n] >= 0 {
          FewerNodesAreFarther(deps, all, seeds, max, n, slow[n], fast[n]);
        }
        if fast[n] >= 0 {
          StepsDownReaches(deps, all, seeds, max, fast, n);
          ReachedWithin(deps, seeds, max, n, fast[n], slow[n]);
        }
      }
    }
  }

  lemma DistanceRange<V(!new)>(deps: map<V, seq<V>>, seeds: set<V>, max: int, n: V, d: int)
    requires IsDistance(deps, seeds, max, n, d)
    ensures d >= -1 && (d >= 0 ==> InRange(max, d))
  {
  }

  lemma ReachedWithin<V(!new)>(deps: map<V, seq<V>>, seeds: set<V>, max: int, n: V, e: nat, d: int)
    requires IsDistance(deps, seeds, max, n, d) && Within(deps, seeds, n, e) && InRange(max, e)
    ensures 0 <= d <= e
  {
    if d > e {
      WithinMonotone(deps, seeds, n, e, d - 1);
    }
  }

  /** When every node that depends on an entered node or a seed may itself be
      entered, the restriction cuts no walk. */
  lemma {:induction false} ClosedRestrictionReachesAll<V(!new)>(deps: map<V, seq<V>>, all: map<V, seq<V>>,
                                                         seeds: set<V>, n: V, k: nat)
    requires forall v | v in deps :: v in all && all[v] == deps[v]
    requires forall v, u | v in all && u in all[v] && (u in deps || u in seeds) :: v in deps
    requires Within(all, seeds, n, k)
    ensures n in deps || n in seeds
    decreases k
  {
    if n !in seeds {
      var m :| m in all[n] && Within(all, seeds, m, k - 1);
      ClosedRestrictionReachesAll(deps, all, seeds, m, k - 1);
    }
  }

  lemma ClosedRestrictionStepsDown<V(!new)>(deps: map<V, seq<V>>, all: map<V, seq<V>>, seeds: set<V>, max: int,
                                     fast: map<V, int>)
    requires forall v | v in deps :: v in all && all[v] == deps[v]
    requires forall v, u | v in all && u in all[v] && (u in deps || u in seeds) :: v in deps
    requires fast.Keys == deps.Keys + seeds && AreDistances(all, seeds, max, fast)
    ensures StepsDown(deps, fast)
  {
    forall n | n in deps && n in fast && fast[n] > 0
      ensures exists m :: m in deps[n] && m in fast && fast[m] == fast[n] - 1
    {
      var m := OneStepNearer(all, seeds, max, n, fast[n]);
      ClosedRestrictionReachesAll(deps, all, seeds, m, fast[n] - 1);
      DistanceUnique(all, seeds, max, m, fast[m], fast[n] - 1);
    }
  }

  lemma ClosedRestrictionKeepsDistance<V(!new)>(deps: map<V, seq<V>>, all: map<V, seq<V>>, seeds: set<V>, max: int,
                                         n: V, d: int)
    requires forall v | v in deps :: v in all && all[v] == deps[v]
    requires forall v, u | v in all && u in all[v] && (u in deps || u in seeds) :: v in deps
    ensures IsDistance(deps, seeds, max, n, d) <==> IsDistance(all, seeds, max, n, d)
  {
    if n in deps.Keys + seeds {
      var fast := map m | m in deps.Keys + seeds :: DistanceOf(all, seeds, max, m);
      var slow := map m | m in deps.Keys + seeds :: DistanceOf(deps, seeds, max, m);
      ClosedRestrictionStepsDown(deps, all, seeds, max, fast);
      RestrictionKeepsDistances(deps, all, seeds, max, fast, slow);
      OnlyDistance(deps, seeds, max, n, d);
      OnlyDistance(all, seeds, max, n, d);
      assert fast[n] == slow[n];
    } else {
      forall k: nat ensures !Within(all, seeds, n, k) {
        if Within(all, seeds, n, k) {
          ClosedRestrictionReachesAll(deps, all, seeds, n, k);
        }
      }
    }
  }

  lemma OnlyDistance<V(!new)>(deps: map<V, seq<V>>, seeds: set<V>, max: int, n: V, d: int)
    ensures IsDistance(deps, seeds, max, n, d) <==> d == DistanceOf(deps, seeds, max, n)
  {
    if IsDistance(deps, seeds, max, n, d) {
      DistanceUnique(deps, seeds, max, n, d, DistanceOf(deps, seeds, max, n));
    }
  }
}
