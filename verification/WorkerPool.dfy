/** The worker pool of one repository: leases, failures and releases as
    interleaved steps over a buffered channel of slots. */
module WorkerPool {
  import opened Wrappers
  import opened Sorting

  type SlotID = nat
  type LeaseID = nat
  type WorkspaceID = nat

  /** A worker directory: whether a clone is believed to be there, and the lease
      that last restored or cloned it, until someone works in it. */
  datatype Slot = Slot(created: bool, cleanFor: Option<LeaseID>)

  /** Where a lease is between asking for a slot and handing out a workspace. */
  datatype Phase = Waiting | Acquired(slot: SlotID) | Cloning(slot: SlotID) | Ready(slot: SlotID)

  /** A handed-out workspace: its once-only release has not begun, has begun, or
      is over. */
  datatype Release = Live | Returning | Released

  datatype Workspace = Workspace(slot: SlotID, release: Release)

  datatype Pool = Pool(
    capacity: nat, slots: map<SlotID, Slot>, avail: seq<SlotID>, leases: map<LeaseID, Phase>,
    workspaces: map<WorkspaceID, Workspace>)

  datatype Action =
    | Ask(lease: LeaseID)
    | Acquire(lease: LeaseID)
    | GiveUp(lease: LeaseID)
    | Inspect(lease: LeaseID, restored: bool)
    | Clone(lease: LeaseID, cloned: bool)
    | HandOut(lease: LeaseID, workspace: WorkspaceID)
    | Work(workspace: WorkspaceID)
    | BeginRelease(workspace: WorkspaceID)
    | EndRelease(workspace: WorkspaceID)

  predicate Holds(p: Phase) {
    !p.Waiting?
  }

  // ---- Steps ----

  /** Sending to the channel: it blocks when the buffer is full. */
  predicate Blocks(p: Pool) {
    |p.avail| >= p.capacity
  }

  /** Putting a slot back; a blocked sender makes no step. */
  function Return(p: Pool, slot: SlotID): Option<Pool> {
    if Blocks(p) then None else Some(p.(avail := p.avail + [slot]))
  }

  /** One step of one party, or None when it cannot be taken. */
  function Next(p: Pool, a: Action): Option<Pool> {
    match a
    case Ask(l) =>
      if l in p.leases then None else Some(p.(leases := p.leases[l := Waiting]))
    case Acquire(l) =>
      if l in p.leases && p.leases[l].Waiting? && p.avail != []
      then Some(p.(avail := p.avail[1..], leases := p.leases[l := Acquired(p.avail[0])]))
      else None
    case GiveUp(l) =>
      if l in p.leases && p.leases[l].Waiting? then Some(p.(leases := p.leases - {l})) else None
    case Inspect(l, restored) =>
      if l in p.leases && p.leases[l].Acquired? && p.leases[l].slot in p.slots then
        var s := p.leases[l].slot;
        if !p.slots[s].created then Some(p.(leases := p.leases[l := Cloning(s)]))
        else if restored then Some(p.(slots := p.slots[s := Slot(true, Some(l))], leases := p.leases[l := Ready(s)]))
        else Some(p.(slots := p.slots[s := Slot(false, None)], leases := p.leases[l := Cloning(s)]))
      else None
    case Clone(l, cloned) =>
      if l in p.leases && p.leases[l].Cloning? && p.leases[l].slot in p.slots then
        var s := p.leases[l].slot;
        if cloned then Some(p.(slots := p.slots[s := Slot(true, Some(l))], leases := p.leases[l := Ready(s)]))
        else Return(p.(leases := p.leases - {l}), s)
      else None
    case HandOut(l, w) =>
      if l in p.leases && p.leases[l].Ready? && w !in p.workspaces
      then Some(p.(leases := p.leases - {l}, workspaces := p.workspaces[w := Workspace(p.leases[l].slot, Live)]))
      else None
    case Work(w) =>
      if w in p.workspaces && p.workspaces[w].release.Live? && p.workspaces[w].slot in p.slots then
        var s := p.workspaces[w].slot;
        Some(p.(slots := p.slots[s := p.slots[s].(cleanFor := None)]))
      else None
    case BeginRelease(w) =>
      if w !in p.workspaces then None
      else if p.workspaces[w].release.Live?
          then Some(p.(workspaces := p.workspaces[w := p.workspaces[w].(release := Returning)]))
      else Some(p)
    case EndRelease(w) =>
      if w in p.workspaces && p.workspaces[w].release.Returning?
      then Return(p.(workspaces := p.workspaces[w := p.workspaces[w].(release := Released)]), p.workspaces[w].slot)
      else None
  }

  /** A pool of fresh slots, some of which hold a clone from an earlier run. */
  function Fresh(capacity: nat, found: set<SlotID>): Pool {
    Pool(capacity, map s | 0 <= s < capacity :: Slot(s in found, None),
         seq(capacity, i requires 0 <= i < capacity => i), map[], map[])
  }

  /** The state after `actions`, when each of them could be taken. */
  function Run(p: Pool, actions: seq<Action>): Option<Pool> {
    if actions == [] then Some(p)
    else
      match Run(p, actions[..|actions| - 1])
      case None => None
      case Some(q) => Next(q, actions[|actions| - 1])
  }

  // ---- Where a slot is ----

  datatype Place = InChannel(at: nat) | WithLease(lease: LeaseID) | WithWorkspace(workspace: WorkspaceID)

  /** Slot `s` is at `place`. */
  predicate IsAt(p: Pool, s: SlotID, place: Place) {
    match place
    case InChannel(i) => i < |p.avail| && p.avail[i] == s
    case WithLease(l) => l in p.leases && Holds(p.leases[l]) && p.leases[l].slot == s
    case WithWorkspace(w) => w in p.workspaces && !p.workspaces[w].release.Released? && p.workspaces[w].slot == s
  }

  /** Every slot is in exactly one place, and only slots are anywhere. */
  ghost predicate OnePlaceEach(p: Pool) {
    && (forall s | s in p.slots :: exists place :: IsAt(p, s, place))
    && (forall s, x, y | IsAt(p, s, x) && IsAt(p, s, y) :: x == y)
    && (forall s, x | IsAt(p, s, x) :: s in p.slots)
  }

  /** A lease about to hand out a workspace restored or cloned its slot itself. */
  ghost predicate HandsOutClean(p: Pool) {
    forall l | l in p.leases && p.leases[l].Ready? ::
        p.leases[l].slot in p.slots && p.slots[p.leases[l].slot] == Slot(true, Some(l))
  }

  ghost predicate Safe(p: Pool) {
    && |p.slots.Keys| == p.capacity && OnePlaceEach(p) && HandsOutClean(p)
  }

  // ---- Every step keeps the pool safe ----

  /** Where slots moved: `back` says where a place's slot was, `forth` where it
      went. */
  lemma MovedSlots(p: Pool, p': Pool, back: Place -> Place, forth: Place -> Place)
    requires OnePlaceEach(p) && p'.slots.Keys == p.slots.Keys
    requires forall s, x | IsAt(p', s, x) :: IsAt(p, s, back(x)) && forth(back(x)) == x
    requires forall s, x | IsAt(p, s, x) :: IsAt(p', s, forth(x))
    ensures OnePlaceEach(p')
  {
    hide IsAt;
    forall s | s in p'.slots ensures exists place :: IsAt(p', s, place) {
      var x :| IsAt(p, s, x);
      assert IsAt(p', s, forth(x));
    }
    forall s, x, y | IsAt(p', s, x) && IsAt(p', s, y) ensures x == y {
      assert IsAt(p, s, back(x)) && IsAt(p, s, back(y));
    }
  }

  lemma StayedSlots(p: Pool, p': Pool)
    requires OnePlaceEach(p) && p'.slots.Keys == p.slots.Keys
    requires forall s, x :: IsAt(p', s, x) <==> IsAt(p, s, x)
    ensures OnePlaceEach(p')
  {
    hide IsAt;
    MovedSlots(p, p', x => x, x => x);
  }

  /** A slot that is out is not in the channel, so there is room for it. */
  lemma OutLeavesRoom(p: Pool, s: SlotID, place: Place)
    requires Safe(p) && IsAt(p, s, place) && !place.InChannel?
    ensures !Blocks(p)
  {
    assert NoDuplicates(p.avail) by {
      forall i, j | 0 <= i < j < |p.avail| ensures p.avail[i] != p.avail[j] {
        if p.avail[i] == p.avail[j] {
          assert IsAt(p, p.avail[i], InChannel(i)) && IsAt(p, p.avail[i], InChannel(j));
        }
      }
    }
    forall x | x in p.avail ensures x in p.slots.Keys - {s} {
      var i :| 0 <= i < |p.avail| && p.avail[i] == x;
      assert IsAt(p, x, InChannel(i));
    }
    DistinctCount(p.avail, p.slots.Keys - {s});
  }

  lemma AcquireMoves(p: Pool, l: LeaseID, p': Pool)
    requires Safe(p) && Next(p, Acquire(l)) == Some(p')
    ensures OnePlaceEach(p')
  {
    var back := (x: Place) => if x.InChannel? then InChannel(x.at + 1) else if x == WithLease(l) then InChannel(0)
        else x;
    var forth := (x: Place) => if x.InChannel? then (if x.at == 0 then WithLease(l) else InChannel(x.at - 1)) else x;
    hide OnePlaceEach;
    MovedSlots(p, p', back, forth);
  }

  lemma HandOutMoves(p: Pool, l: LeaseID, w: WorkspaceID, p': Pool)
    requires Safe(p) && Next(p, HandOut(l, w)) == Some(p')
    ensures OnePlaceEach(p')
  {
    var back := (x: Place) => if x == WithWorkspace(w) then WithLease(l) else x;
    var forth := (x: Place) => if x == WithLease(l) then WithWorkspace(w) else x;
    hide OnePlaceEach;
    MovedSlots(p, p', back, forth);
  }

  /** Returning the slot of `from`, which gives it up. */
  lemma ReturnMoves(p: Pool, q: Pool, s: SlotID, from: Place, p': Pool)
    requires Safe(p) && IsAt(p, s, from) && !from.InChannel?
    requires q.avail == p.avail && q.capacity == p.capacity && q.slots.Keys == p.slots.Keys
    requires forall t, x :: IsAt(q, t, x) <==> IsAt(p, t, x) && x != from
    requires Return(q, s) == Some(p')
    ensures OnePlaceEach(p')
  {
    var n := |p.avail|;
    var back := (x: Place) => if x == InChannel(n) then from else x;
    var forth := (x: Place) => if x == from then InChannel(n) else x;
    forall t, x ensures IsAt(p', t, x) <==> if x == InChannel(n) then t == s else IsAt(q, t, x) {
    }
    hide IsAt;
    forall t, x | IsAt(p', t, x) ensures IsAt(p, t, back(x)) && forth(back(x)) == x {
    }
    forall t, x | IsAt(p, t, x) ensures IsAt(p', t, forth(x)) {
      if x == from {
        SlotOf(p, s, t, from);
      }
    }
    MovedSlots(p, p', back, forth);
  }

  lemma SlotOf(p: Pool, s: SlotID, t: SlotID, place: Place)
    requires IsAt(p, s, place) && IsAt(p, t, place)
    ensures s == t
  {
  }

  /** Asking, giving up, inspecting, cloning, working and beginning a release
      move no slot. */
  lemma StillStep(p: Pool, a: Action, p': Pool)
    requires Next(p, a) == Some(p')
    requires a.Ask? || a.GiveUp? || a.Inspect? || a.Work? || a.BeginRelease? || (a.Clone? && a.cloned)
    ensures forall s, x :: IsAt(p', s, x) <==> IsAt(p, s, x)
  {
    forall s, x ensures IsAt(p', s, x) <==> IsAt(p, s, x) {
      match x
      case InChannel(_) =>
      case WithLease(l) =>
      case WithWorkspace(w) =>
    }
  }

  lemma FailedCloneMoves(p: Pool, l: LeaseID, p': Pool)
    requires Safe(p) && Next(p, Clone(l, false)) == Some(p')
    ensures OnePlaceEach(p')
  {
    hide OnePlaceEach;
    ReturnMoves(p, p.(leases := p.leases - {l}), p.leases[l].slot, WithLease(l), p');
  }

  lemma EndReleaseMoves(p: Pool, w: WorkspaceID, p': Pool)
    requires Safe(p) && Next(p, EndRelease(w)) == Some(p')
    ensures OnePlaceEach(p')
  {
    hide OnePlaceEach;
    ReturnMoves(p, p.(workspaces := p.workspaces[w := p.workspaces[w].(release := Released)]), p.workspaces[w].slot,
                WithWorkspace(w), p');
  }

  lemma SameSlots(p: Pool, a: Action, p': Pool)
    requires Next(p, a) == Some(p')
    ensures p'.capacity == p.capacity && p'.slots.Keys == p.slots.Keys
  {
  }

  lemma StepKeepsPlaces(p: Pool, a: Action, p': Pool)
    requires Safe(p) && Next(p, a) == Some(p')
    ensures OnePlaceEach(p')
  {
    hide OnePlaceEach, HandsOutClean, IsAt, Next;
    SameSlots(p, a, p');
    match a
    case Acquire(l) => AcquireMoves(p, l, p');
    case HandOut(l, w) => HandOutMoves(p, l, w, p');
    case Clone(l, cloned) =>
      if cloned {
        StillStep(p, a, p');
        StayedSlots(p, p');
      } else {
        FailedCloneMoves(p, l, p');
      }
    case EndRelease(w) => EndReleaseMoves(p, w, p');
    case _ =>
      StillStep(p, a, p');
      StayedSlots(p, p');
  }

  lemma OnePlace(p: Pool, s: SlotID, x: Place, y: Place)
    requires OnePlaceEach(p) && IsAt(p, s, x) && IsAt(p, s, y)
    ensures x == y
  {
  }

  /** No step touches the slot of a lease that is ready but its own. */
  lemma StepKeepsClean(p: Pool, a: Action, p': Pool)
    requires Safe(p) && Next(p, a) == Some(p')
    ensures HandsOutClean(p')
  {
    hide OnePlaceEach;
    forall l | l in p'.leases && p'.leases[l].Ready?
      ensures p'.leases[l].slot in p'.slots && p'.slots[p'.leases[l].slot] == Slot(true, Some(l))
    {
      var s := p'.leases[l].slot;
      if l in p.leases && p.leases[l] == p'.leases[l] {
        assert IsAt(p, s, WithLease(l));
        match a
        case Inspect(m, _) =>
          if p.leases[m].slot == s {
            OnePlace(p, s, WithLease(l), WithLease(m));
          }
        case Clone(m, cloned) =>
          if cloned && p.leases[m].slot == s {
            OnePlace(p, s, WithLease(l), WithLease(m));
          }
        case Work(w) =>
          if p.workspaces[w].slot == s {
            OnePlace(p, s, WithLease(l), WithWorkspace(w));
          }
        case _ =>
      }
    }
  }

  lemma StepIsSafe(p: Pool, a: Action, p': Pool)
    requires Safe(p) && Next(p, a) == Some(p')
    ensures Safe(p') && p'.capacity == p.capacity
  {
    hide OnePlaceEach, HandsOutClean, Next;
    SameSlots(p, a, p');
    StepKeepsPlaces(p, a, p');
    StepKeepsClean(p, a, p');
  }

  lemma FreshIsSafe(capacity: nat, found: set<SlotID>)
    ensures Safe(Fresh(capacity, found))
  {
    var p := Fresh(capacity, found);
    assert OnePlaceEach(p) by {
      forall s | s in p.slots ensures exists place :: IsAt(p, s, place) {
        assert IsAt(p, s, InChannel(s));
      }
    }
    forall s | s in p.slots.Keys ensures s in p.avail {
      assert p.avail[s] == s;
    }
    DistinctCount(p.avail, p.slots.Keys);
    CoveringCount(p.avail, p.slots.Keys);
  }

  // ---- Every run ----

  /** Whatever leases, failures and releases are interleaved, every slot is in
      exactly one place and every ready lease cleaned its own. */
  lemma {:induction false} RunsAreSafe(capacity: nat, found: set<SlotID>, actions: seq<Action>, p: Pool)
    requires Run(Fresh(capacity, found), actions) == Some(p)
    ensures Safe(p) && p.capacity == capacity
    decreases |actions|
  {
    hide Safe, Next;
    if actions == [] {
      FreshIsSafe(capacity, found);
    } else {
      var front := actions[..|actions| - 1];
      var q := Run(Fresh(capacity, found), front).value;
      RunsAreSafe(capacity, found, front, q);
      StepIsSafe(q, actions[|actions| - 1], p);
    }
  }

  /** Returning a slot never blocks: after a failed clone and on a release there
      is always room in the channel. */
  lemma ReturnsNeverBlock(capacity: nat, found: set<SlotID>, actions: seq<Action>, p: Pool, l: LeaseID, w: WorkspaceID)
    requires Run(Fresh(capacity, found), actions) == Some(p)
    ensures l in p.leases && p.leases[l].Cloning? ==> Next(p, Clone(l, false)).Some?
    ensures w in p.workspaces && p.workspaces[w].release.Returning? ==> Next(p, EndRelease(w)).Some?
  {
    RunsAreSafe(capacity, found, actions, p);
    if l in p.leases && p.leases[l].Cloning? {
      assert IsAt(p, p.leases[l].slot, WithLease(l));
      OutLeavesRoom(p, p.leases[l].slot, WithLease(l));
    }
    if w in p.workspaces && p.workspaces[w].release.Returning? {
      assert IsAt(p, p.workspaces[w].slot, WithWorkspace(w));
      OutLeavesRoom(p, p.workspaces[w].slot, WithWorkspace(w));
    }
  }

  /** A workspace is handed out only over a slot that this very lease restored
      or cloned and that nobody worked in since. */
  lemma HandedOutClean(capacity: nat, found: set<SlotID>, actions: seq<Action>, p: Pool, l: LeaseID, w: WorkspaceID)
    requires Run(Fresh(capacity, found), actions) == Some(p) && Next(p, HandOut(l, w)).Some?
    ensures p.leases[l].slot in p.slots && p.slots[p.leases[l].slot] == Slot(true, Some(l))
    ensures forall v | v in p.workspaces && !p.workspaces[v].release.Released? ::
        p.workspaces[v].slot != p.leases[l].slot
    ensures forall m | m in p.leases && m != l && Holds(p.leases[m]) :: p.leases[m].slot != p.leases[l].slot
  {
    RunsAreSafe(capacity, found, actions, p);
    hide OnePlaceEach;
    var s := p.leases[l].slot;
    forall v | v in p.workspaces && !p.workspaces[v].release.Released? ensures p.workspaces[v].slot != s {
      if p.workspaces[v].slot == s {
        OnePlace(p, s, WithLease(l), WithWorkspace(v));
      }
    }
    forall m | m in p.leases && m != l && Holds(p.leases[m]) ensures p.leases[m].slot != s {
      if p.leases[m].slot == s {
        OnePlace(p, s, WithLease(l), WithLease(m));
      }
    }
  }

  /** One step of a workspace's release: begun once, over once, and never back. */
  lemma ReleaseStep(p: Pool, a: Action, p': Pool, w: WorkspaceID)
    requires Next(p, a) == Some(p') && w in p.workspaces
    ensures w in p'.workspaces && p'.workspaces[w].slot == p.workspaces[w].slot
    ensures !p.workspaces[w].release.Live? ==> !p'.workspaces[w].release.Live?
    ensures p.workspaces[w].release.Released? ==> p'.workspaces[w].release.Released?
    ensures !p.workspaces[w].release.Live? && a == BeginRelease(w) ==> p' == p
    ensures p.workspaces[w].release.Returning? && p'.workspaces[w].release.Released? ==>
              a == EndRelease(w) && p'.avail == p.avail + [p.workspaces[w].slot]
    ensures p.workspaces[w].release.Live? ==> !p'.workspaces[w].release.Released?
  {
  }

  /** How often a run gives back the slot of workspace `w`. */
  function Returned(actions: seq<Action>, w: WorkspaceID): nat {
    if actions == [] then 0
    else
      var last := |actions| - 1;
      Returned(actions[..last], w) + if actions[last] == EndRelease(w) then 1 else 0
  }

  /** Only a workspace's first release counts: over a whole run its slot is given
      back once if its release is over and never before, however often it was
      released, and a release after the first changes nothing. */
  lemma {:induction false} ReleaseCountsOnce(capacity: nat, found: set<SlotID>, actions: seq<Action>, p: Pool,
                                             w: WorkspaceID)
    requires Run(Fresh(capacity, found), actions) == Some(p)
    ensures Returned(actions, w) == if w in p.workspaces && p.workspaces[w].release.Released? then 1 else 0
    ensures w in p.workspaces && !p.workspaces[w].release.Live? ==> Next(p, BeginRelease(w)) == Some(p)
    decreases |actions|
  {
    if actions != [] {
      var front, a := actions[..|actions| - 1], actions[|actions| - 1];
      var before := Run(Fresh(capacity, found), front).value;
      ReleaseCountsOnce(capacity, found, front, before, w);
      if w in before.workspaces {
        ReleaseStep(before, a, p, w);
      }
    }
  }

  /** No slot is ever lost: when no lease is in progress and every workspace was
      released, the channel holds all of them. */
  lemma QuietPoolIsFull(capacity: nat, found: set<SlotID>, actions: seq<Action>, p: Pool)
    requires Run(Fresh(capacity, found), actions) == Some(p)
    requires (forall l | l in p.leases :: !Holds(p.leases[l]))
    requires forall w | w in p.workspaces :: p.workspaces[w].release.Released?
    ensures |p.avail| == capacity && forall s | s in p.slots :: s in p.avail
  {
    RunsAreSafe(capacity, found, actions, p);
    forall s | s in p.slots ensures s in p.avail {
      var x :| IsAt(p, s, x);
    }
    forall i, j | 0 <= i < j < |p.avail| ensures p.avail[i] != p.avail[j] {
      if p.avail[i] == p.avail[j] {
        OnePlace(p, p.avail[i], InChannel(i), InChannel(j));
      }
    }
    forall s | s in p.avail ensures s in p.slots {
      var i :| 0 <= i < |p.avail| && p.avail[i] == s;
      assert IsAt(p, s, InChannel(i));
    }
    DistinctCount(p.avail, p.slots.Keys);
    CoveringCount(p.avail, p.slots.Keys);
  }

  lemma {:induction false} CoveringCount(list: seq<SlotID>, items: set<SlotID>)
    requires forall x | x in items :: x in list
    ensures |items| <= |list|
  {
    if list == [] {
      assert items == {};
    } else {
      CoveringCount(list[1..], items - {list[0]});
      assert list == [list[0]] + list[1..];
    }
  }
}
