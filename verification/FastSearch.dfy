/** Phase 3b: multi-source breadth-first search over the reverse rows, with a
    visited bitset and a distance array. It walks through unchanged nodes. */
module FastSearch {
  import opened Bits
  import opened Distance
  import opened ReverseCsr
  import opened HashDiff

  const WORD := 64

  ghost function IndexDeps(deps: seq<seq<int>>): map<int, seq<int>> {
    map i | 0 <= i < |deps| :: deps[i]
  }

  /** The seeds that have an after-node. */
  ghost function SeedIndices(list: seq<ChangedNode>): set<int>
    reads list
  {
    set n | n in list && n.seed && n.afterIndex >= 0 :: n.afterIndex
  }

  /** Every node sits in its own slot, and every filled slot is listed. */
  ghost predicate Listed(slots: seq<ChangedNode?>, list: seq<ChangedNode>) {
    && (forall n | n in list :: n.afterIndex < |slots| && (n.afterIndex >= 0 ==> slots[n.afterIndex] == n))
    && (forall i | 0 <= i < |slots| && slots[i] != null :: slots[i] in list && slots[i].afterIndex == i)
  }

  /** What the distance array records. */
  ghost function Reached(distArr: seq<int>): map<int, int> {
    map i | 0 <= i < |distArr| && distArr[i] >= 0 :: distArr[i]
  }

  ghost predicate BitsMatch(visited: seq<int>, distArr: seq<int>) {
    && |distArr| <= WORD * |visited|
    && forall i | 0 <= i < |distArr| :: distArr[i] >= -1 && (Member(visited, WORD, i) <==> distArr[i] >= 0)
  }

  lemma BitsAfterVisit(visited: seq<int>, distArr: seq<int>, i: nat, d: nat)
    requires BitsMatch(visited, distArr) && i < |distArr|
    ensures i / WORD < |visited|
    ensures BitsMatch(visited[i / WORD := SetBit(visited[i / WORD], i % WORD)], distArr[i := d])
    ensures Reached(distArr[i := d]) == Reached(distArr)[i := d]
  {
    var visited', distArr' := visited[i / WORD := SetBit(visited[i / WORD], i % WORD)], distArr[i := d];
    forall j | 0 <= j < |distArr| ensures Member(visited', WORD, j) <==> distArr'[j] >= 0 {
      MemberAfterSet(visited, WORD, i, j);
    }
  }

  method FreshSets(n: nat) returns (visited: array<int>, distArr: array<int>)
    ensures fresh(visited) && fresh(distArr) && visited != distArr
    ensures distArr.Length == n && BitsMatch(visited[..], distArr[..])
    ensures forall i | 0 <= i < n :: distArr[i] == -1
  {
    visited := new int[(n + WORD - 1) / WORD](_ => 0);
    distArr := new int[n](_ => -1);
    forall i | 0 <= i < n ensures !Member(visited[..], WORD, i) {
      NoBitsInZero(i % WORD);
    }
  }

  method InitDistances(changedList: seq<ChangedNode>)
    modifies changedList
    ensures forall n | n in changedList :: n.seed == old(n.seed) && n.distance == if n.seed then 0 else -1
  {
    for k := 0 to |changedList|
      invariant forall n | n in changedList :: n.seed == old(n.seed)
      invariant forall j | 0 <= j < k :: changedList[j].distance == if changedList[j].seed then 0 else -1
    {
      changedList[k].distance := if changedList[k].seed then 0 else -1;
    }
  }

  method QueueSeeds(changedList: seq<ChangedNode>, visited: array<int>, distArr: array<int>) returns (queue: seq<int>)
    requires visited != distArr && BitsMatch(visited[..], distArr[..])
    requires forall n | n in changedList :: n.afterIndex < distArr.Length
    requires forall i | 0 <= i < distArr.Length :: distArr[i] == -1
    modifies visited, distArr
    ensures BitsMatch(visited[..], distArr[..])
    ensures Reached(distArr[..]) == map s | s in SeedIndices(changedList) :: 0
    ensures forall i | 0 <= i < distArr.Length :: distArr[i] == if i in SeedIndices(changedList) then 0 else -1
    ensures forall s :: s in queue <==> s in SeedIndices(changedList)
  {
    hide BitsMatch;
    queue := [];
    for k := 0 to |changedList|
      invariant BitsMatch(visited[..], distArr[..])
      invariant forall s :: s in queue <==> s in SeedIndices(changedList[..k])
      invariant forall i | 0 <= i < distArr.Length :: distArr[i] == if i in queue then 0 else -1
    {
      assert changedList[..k + 1] == changedList[..k] + [changedList[k]];
      var node := changedList[k];
      if node.seed && node.afterIndex >= 0 {
        var ai := node.afterIndex;
        VisitedMeans(visited[..], distArr[..], ai);
        if !Bit(visited[ai / WORD], ai % WORD) {
          BitsAfterVisit(visited[..], distArr[..], ai, 0);
          ghost var v0, d0 := visited[..], distArr[..];
          visited[ai / WORD] := SetBit(visited[ai / WORD], ai % WORD);
          distArr[ai] := 0;
          assert visited[..] == v0[ai / WORD := SetBit(v0[ai / WORD], ai % WORD)] && distArr[..] == d0[ai := 0];
          queue := queue + [ai];
        }
      }
    }
    assert changedList[..|changedList|] == changedList;
  }

  lemma VisitedMeans(visited: seq<int>, distArr: seq<int>, i: nat)
    requires BitsMatch(visited, distArr) && i < |distArr|
    ensures i / WORD < |visited|
    ensures Bit(visited[i / WORD], i % WORD) <==> distArr[i] >= 0
  {
    assert Member(visited, WORD, i) <==> distArr[i] >= 0;
  }

  /** The distances recorded in the array and on the nodes agree. */
  ghost predicate NodesAgree(slots: seq<ChangedNode?>, distArr: seq<int>)
    reads slots
  {
    |slots| == |distArr| && forall i | 0 <= i < |slots| && slots[i] != null :: slots[i].distance == distArr[i]
  }

  /** Everything the search keeps between two turns of its loop. */
  ghost predicate Running(all: map<int, seq<int>>, seeds: set<int>, maxDistance: int, slots: seq<ChangedNode?>,
                          visited: seq<int>, distArr: seq<int>, done: set<int>, queue: seq<int>)
    reads slots
  {
    && BitsMatch(visited, distArr) && NodesAgree(slots, distArr)
    && Searching(all, seeds, maxDistance, Reached(distArr), done, queue)
  }

  method StartSearch(n: nat, slots: array<ChangedNode?>, changedList: seq<ChangedNode>, maxDistance: int,
                     ghost deps: seq<seq<int>>)
    returns (visited: array<int>, distArr: array<int>, queue: seq<int>)
    requires |deps| == n == slots.Length && Listed(slots[..], changedList)
    modifies changedList
    ensures fresh(visited) && fresh(distArr) && visited != distArr && distArr.Length == n
    ensures forall c | c in changedList ::
        c.seed == old(c.seed) && (c.afterIndex < 0 ==> c.distance == if c.seed then 0 else -1)
    ensures Running(IndexDeps(deps), SeedIndices(changedList), maxDistance, slots[..], visited[..], distArr[..], {},
        queue)
  {
    InitDistances(changedList);
    visited, distArr := FreshSets(n);
    queue := QueueSeeds(changedList, visited, distArr);
    ghost var seeds := SeedIndices(changedList);
    assert forall s :: s in queue ==> s in seeds;
    SearchStart(IndexDeps(deps), seeds, maxDistance, queue);
    assert NodesAgree(slots[..], distArr[..]) by {
      assert forall i | 0 <= i < n && slots[i] != null ::
          slots[i] in changedList && slots[i].afterIndex == i && (i in seeds <==> slots[i].seed);
    }
  }

  /** Distances are written once. */
  ghost predicate OnlyFirstVisits(prior: seq<int>, distArr: seq<int>) {
    && |distArr| == |prior|
    && forall i | 0 <= i < |prior| :: distArr[i] == prior[i] || (prior[i] < 0 && distArr[i] >= 0)
  }

  /** Visits one reverse neighbour of the queue's head, unless it was seen or is
      out of range. */
  method VisitNeighbour(nb: int, cur: int, n: nat, visited: array<int>, distArr: array<int>,
                        changedByAfter: array<ChangedNode?>,
                        queue0: seq<int>, head: nat, maxDistance: int, ghost changedList: seq<ChangedNode>,
                        ghost all: map<int, seq<int>>, ghost seeds: set<int>, ghost done: set<int>)
    returns (queue: seq<int>)
    requires n == distArr.Length == changedByAfter.Length && visited != distArr
    requires Listed(changedByAfter[..], changedList)
    requires head < |queue0| && queue0[head] == cur && 0 <= cur < n && distArr[cur] >= 0
    requires 0 <= nb < n && nb in all && cur in all[nb]
    requires Running(all, seeds, maxDistance, changedByAfter[..], visited[..], distArr[..], done, queue0[head..])
    modifies visited, distArr, changedList
    ensures queue0 <= queue
    ensures Running(all, seeds, maxDistance, changedByAfter[..], visited[..], distArr[..], done, queue[head..])
    ensures OnlyFirstVisits(old(distArr[..]), distArr[..])
    ensures distArr[..] == old(distArr[..]) ==> queue == queue0
    ensures InRange(maxDistance, distArr[cur] + 1) ==> distArr[nb] >= 0
    ensures forall c | c in changedList :: c.seed == old(c.seed) && (c.afterIndex < 0 ==> c.distance == old(c.distance))
  {
    queue := queue0;
    hide Searching, BitsMatch;
    VisitedMeans(visited[..], distArr[..], nb);
    if Bit(visited[nb / WORD], nb % WORD) {
      return;
    }
    var newDist := distArr[cur] + 1;
    if maxDistance >= 0 && newDist > maxDistance {
      return;
    }
    ghost var v0, d0 := visited[..], distArr[..];
    SearchVisit(all, seeds, maxDistance, Reached(d0), done, queue[head..], nb);
    BitsAfterVisit(v0, d0, nb, newDist);
    visited[nb / WORD] := SetBit(visited[nb / WORD], nb % WORD);
    distArr[nb] := newDist;
    assert visited[..] == v0[nb / WORD := SetBit(v0[nb / WORD], nb % WORD)] && distArr[..] == d0[nb := newDist];
    assert (queue + [nb])[head..] == queue[head..] + [nb];
    queue := queue + [nb];
    if changedByAfter[nb] != null {
      changedByAfter[nb].distance := newDist;
    }
  }

  lemma RowMember(deps: seq<seq<int>>, offsets: seq<int>, targets: seq<int>, d: int, k: int)
    requires IsReverse(deps, offsets, targets) && 0 <= d < |deps|
    ensures RowIs(offsets, targets, d, Sources(deps, d, |deps|))
    ensures offsets[d] <= k < offsets[d + 1] ==> 0 <= targets[k] < |deps| && d in deps[targets[k]]
  {
    assert RowIs(offsets, targets, d, Sources(deps, d, |deps|));
    if offsets[d] <= k < offsets[d + 1] {
      assert targets[k] == targets[offsets[d]..offsets[d + 1]][k - offsets[d]];
      SourcesMember(deps, d, |deps|, targets[k]);
    }
  }

  lemma RowComplete(deps: seq<seq<int>>, offsets: seq<int>, targets: seq<int>, d: int, s: int)
    requires IsReverse(deps, offsets, targets) && 0 <= d < |deps| && 0 <= s < |deps| && d in deps[s]
    ensures RowIs(offsets, targets, d, Sources(deps, d, |deps|))
    ensures exists k :: offsets[d] <= k < offsets[d + 1] && targets[k] == s
  {
    assert RowIs(offsets, targets, d, Sources(deps, d, |deps|));
    SourcesMember(deps, d, |deps|, s);
    var row := targets[offsets[d]..offsets[d + 1]];
    var j :| 0 <= j < |row| && row[j] == s;
    assert targets[offsets[d] + j] == s;
  }

  /** One turn of the search loop. */
  method ExpandHead(n: nat, csrOffsets: array<int>, csrTargets: array<int>, visited: array<int>, distArr: array<int>,
                    changedByAfter: array<ChangedNode?>,
                    queue0: seq<int>, head: nat, maxDistance: int, ghost changedList: seq<ChangedNode>,
                    ghost deps: seq<seq<int>>, ghost seeds: set<int>, ghost done: set<int>)
    returns (queue: seq<int>)
    requires |deps| == n == distArr.Length == changedByAfter.Length && visited != distArr
    requires Listed(changedByAfter[..], changedList)
    requires csrOffsets != visited && csrOffsets != distArr && csrTargets != visited && csrTargets != distArr
    requires IsReverse(deps, csrOffsets[..], csrTargets[..]) && head < |queue0|
    requires Running(IndexDeps(deps), seeds, maxDistance, changedByAfter[..], visited[..], distArr[..], done,
        queue0[head..])
    modifies visited, distArr, changedList
    ensures queue0 <= queue
    ensures Running(IndexDeps(deps), seeds, maxDistance, changedByAfter[..], visited[..], distArr[..], done +
        {queue0[head]}, queue[head + 1..])
    ensures OnlyFirstVisits(old(distArr[..]), distArr[..])
    ensures distArr[..] == old(distArr[..]) ==> queue == queue0
    ensures forall c | c in changedList :: c.seed == old(c.seed) && (c.afterIndex < 0 ==> c.distance == old(c.distance))
  {
    ghost var all, d0 := IndexDeps(deps), distArr[..];
    var cur := queue0[head];
    SearchHead(all, seeds, maxDistance, Reached(d0), done, queue0[head..]);
    hide *;
    queue := queue0;
    ghost var offsets, targets := csrOffsets[..], csrTargets[..];
    HeadRow(deps, offsets, targets, cur);
    var lo, hi := csrOffsets[cur], csrOffsets[cur + 1];
    NoVisits(d0);
    for k := lo to hi
      invariant queue0 <= queue
      invariant Running(all, seeds, maxDistance, changedByAfter[..], visited[..], distArr[..], done, queue[head..])
      invariant OnlyFirstVisits(d0, distArr[..]) && distArr[cur] == d0[cur]
      invariant distArr[..] == d0 ==> queue == queue0
      invariant NeighboursSeen(targets, lo, k, InRange(maxDistance, d0[cur] + 1), distArr[..])
      invariant forall c | c in changedList ::
          c.seed == old(c.seed) && (c.afterIndex < 0 ==> c.distance == old(c.distance))
    {
      ghost var d1 := distArr[..];
      RowMember(deps, offsets, targets, cur, k);
      InAll(deps, targets[k], cur);
      queue := VisitNeighbour(csrTargets[k], cur, n, visited, distArr, changedByAfter, queue, head, maxDistance,
                              changedList, all, seeds, done);
      FirstVisitsCompose(d0, d1, distArr[..]);
      OneMoreSeen(targets, lo, k, InRange(maxDistance, d0[cur] + 1), d1, distArr[..]);
    }
    AllSeen(deps, offsets, targets, cur, maxDistance, distArr[..]);
    PopHead(all, seeds, maxDistance, changedByAfter[..], visited[..], distArr[..], done, queue[head..]);
    assert queue[head..][1..] == queue[head + 1..];
  }

  /** The targets of a row's first entries have been visited, if in range. */
  ghost predicate NeighboursSeen(targets: seq<int>, lo: int, hi: int, inRange: bool, distArr: seq<int>) {
    0 <= lo <= hi <= |targets| && forall j | lo <= j < hi ::
        0 <= targets[j] < |distArr| && (inRange ==> distArr[targets[j]] >= 0)
  }

  lemma OneMoreSeen(targets: seq<int>, lo: int, k: int, inRange: bool, d1: seq<int>, d2: seq<int>)
    requires NeighboursSeen(targets, lo, k, inRange, d1) && OnlyFirstVisits(d1, d2)
    requires 0 <= k < |targets| && 0 <= targets[k] < |d2| && (inRange ==> d2[targets[k]] >= 0)
    ensures NeighboursSeen(targets, lo, k + 1, inRange, d2)
  {
  }

  lemma NoVisits(d0: seq<int>)
    ensures OnlyFirstVisits(d0, d0)
  {
  }

  lemma FirstVisitsCompose(d0: seq<int>, d1: seq<int>, d2: seq<int>)
    requires OnlyFirstVisits(d0, d1) && OnlyFirstVisits(d1, d2)
    ensures OnlyFirstVisits(d0, d2)
    ensures forall i | 0 <= i < |d0| && d0[i] >= 0 :: d2[i] == d0[i]
    ensures d2 == d0 ==> d1 == d0
    ensures |d0| == |d1| == |d2|
  {
    if d2 == d0 {
      assert forall i | 0 <= i < |d0| :: d1[i] == d0[i];
    }
  }

  lemma InAll(deps: seq<seq<int>>, s: int, d: int)
    requires 0 <= s < |deps| && d in deps[s]
    ensures s in IndexDeps(deps) && d in IndexDeps(deps)[s]
  {
  }

  lemma HeadRow(deps: seq<seq<int>>, offsets: seq<int>, targets: seq<int>, cur: int)
    requires IsReverse(deps, offsets, targets) && 0 <= cur < |deps|
    ensures |offsets| == |deps| + 1 && 0 <= offsets[cur] <= offsets[cur + 1] <= |targets|
    ensures forall inRange: bool, distArr: seq<int> ::
        NeighboursSeen(targets, offsets[cur], offsets[cur], inRange, distArr)
  {
    assert RowIs(offsets, targets, cur, Sources(deps, cur, |deps|));
  }

  lemma AllSeen(deps: seq<seq<int>>, offsets: seq<int>, targets: seq<int>, cur: int, maxDistance: int,
                distArr: seq<int>)
    requires IsReverse(deps, offsets, targets) && 0 <= cur < |deps| == |distArr|
    requires NeighboursSeen(targets, offsets[cur], offsets[cur + 1], InRange(maxDistance, distArr[cur] + 1), distArr)
    ensures forall s | s in IndexDeps(deps) && cur in IndexDeps(deps)[s] && InRange(maxDistance, distArr[cur] + 1) ::
        s in Reached(distArr)
    ensures distArr[cur] >= 0 ==> cur in Reached(distArr) && Reached(distArr)[cur] == distArr[cur]
  {
    forall s | s in IndexDeps(deps) && cur in IndexDeps(deps)[s] && InRange(maxDistance, distArr[cur] + 1)
      ensures s in Reached(distArr)
    {
      RowComplete(deps, offsets, targets, cur, s);
    }
  }

  lemma PopHead(all: map<int, seq<int>>, seeds: set<int>, maxDistance: int, slots: seq<ChangedNode?>,
                visited: seq<int>, distArr: seq<int>, done: set<int>, queue: seq<int>)
    requires Running(all, seeds, maxDistance, slots, visited, distArr, done, queue)
    requires queue != [] && queue[0] in Reached(distArr)
    requires forall s | s in all && queue[0] in all[s] && InRange(maxDistance, Reached(distArr)[queue[0]] + 1) ::
        s in Reached(distArr)
    ensures Running(all, seeds, maxDistance, slots, visited, distArr, done + {queue[0]}, queue[1..])
  {
    hide Searching, BitsMatch, NodesAgree;
    SearchPop(all, seeds, maxDistance, Reached(distArr), done, queue);
  }

  ghost function Unreached(distArr: seq<int>): set<int> {
    set i | 0 <= i < |distArr| && distArr[i] < 0
  }

  lemma FewerUnreached(d0: seq<int>, d1: seq<int>)
    requires OnlyFirstVisits(d0, d1)
    ensures d1 == d0 || Unreached(d1) < Unreached(d0)
  {
    if d1 != d0 {
      var i :| 0 <= i < |d0| && d1[i] != d0[i];
      assert i in Unreached(d0) && i !in Unreached(d1);
    }
  }

  method Search(n: nat, csrOffsets: array<int>, csrTargets: array<int>, changedByAfter: array<ChangedNode?>,
                changedList: seq<ChangedNode>,
                maxDistance: int, ghost deps: seq<seq<int>>)
    requires |deps| == n == changedByAfter.Length && IsReverse(deps, csrOffsets[..], csrTargets[..])
    requires Listed(changedByAfter[..], changedList)
    modifies changedList
    ensures forall c | c in changedList :: c.seed == old(c.seed)
    ensures forall c | c in changedList :: if c.afterIndex >= 0
              then IsDistance(IndexDeps(deps), SeedIndices(changedList), maxDistance, c.afterIndex, c.distance)
              else c.distance == if c.seed then 0 else -1
  {
    hide IsReverse, IsDistance, Running;
    var visited, distArr, queue := StartSearch(n, changedByAfter, changedList, maxDistance, deps);
    ghost var all, seeds := IndexDeps(deps), SeedIndices(changedList);
    ghost var done: set<int> := {};
    var head := 0;
    assert queue[0..] == queue;
    while head < |queue|
      invariant 0 <= head <= |queue|
      invariant Running(all, seeds, maxDistance, changedByAfter[..], visited[..], distArr[..], done, queue[head..])
      invariant forall c | c in changedList ::
          c.seed == old(c.seed) && (c.afterIndex < 0 ==> c.distance == if c.seed then 0 else -1)
      decreases Unreached(distArr[..]), |queue| - head
    {
      ghost var d0, queue0 := distArr[..], queue;
      queue := ExpandHead(n, csrOffsets, csrTargets, visited, distArr, changedByAfter, queue, head, maxDistance,
                          changedList, deps, seeds, done);
      done := done + {queue0[head]};
      head := head + 1;
      FewerUnreached(d0, distArr[..]);
    }
    assert queue[head..] == [];
    RunEnds(all, seeds, maxDistance, changedByAfter[..], visited[..], distArr[..], done);
    assert seeds == SeedIndices(changedList);
  }

  lemma RunEnds(all: map<int, seq<int>>, seeds: set<int>, maxDistance: int, slots: seq<ChangedNode?>, visited: seq<int>,
                distArr: seq<int>, done: set<int>)
    requires Running(all, seeds, maxDistance, slots, visited, distArr, done, [])
    ensures forall i | 0 <= i < |slots| && slots[i] != null :: IsDistance(all, seeds, maxDistance, i, slots[i].distance)
  {
    SearchEnd(all, seeds, maxDistance, Reached(distArr), done);
    forall i | 0 <= i < |slots| && slots[i] != null ensures IsDistance(all, seeds, maxDistance, i, slots[i].distance) {
      SettledIsDistance(all, seeds, maxDistance, Reached(distArr), i);
    }
  }
}
