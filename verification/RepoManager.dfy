/** The pools of all repositories: made when first asked for, then only ever
    stepped. */
module RepoManager {
  import opened Wrappers
  import opened ByteStrings
  import opened WorkerPool

  /** `NewRepoManager`: a pool needs at least one slot. */
  method NewRepoManager(poolSize: int) returns (r: Manager?)
    ensures r != null <==> poolSize > 0
    ensures r != null ==> fresh(r) && r.Valid() && r.poolSize == poolSize && r.pools == map[]
  {
    r := null;
    if poolSize > 0 {
      r := new Manager(poolSize);
    }
  }

  class Manager {
    const poolSize: nat
    var pools: map<Text, Pool>

    ghost predicate Valid()
      reads this
    {
      forall repo | repo in pools :: Safe(pools[repo]) && pools[repo].capacity == poolSize
    }

    constructor (poolSize: nat)
      ensures Valid() && this.poolSize == poolSize && pools == map[]
    {
      this.poolSize := poolSize;
      pools := map[];
    }

    /** `poolFor`: the pool there is, or one with every slot in its channel; the
        slots in `found` hold a clone from an earlier run. */
    method PoolFor(repo: Text, found: set<SlotID>) returns (pool: Pool)
      requires Valid()
      modifies this
      ensures Valid() && repo in pools && pool == pools[repo]
      ensures pools == if repo in old(pools) then old(pools) else old(pools)[repo := Fresh(poolSize, found)]
    {
      if repo in pools {
        return pools[repo];
      }
      var slots: map<SlotID, Slot> := map[];
      var avail: seq<SlotID> := [];
      for i := 0 to poolSize
        invariant slots == map s | 0 <= s < i :: Slot(s in found, None)
        invariant avail == seq(i, k requires 0 <= k < i => k)
      {
        slots := slots[i := Slot(i in found, None)];
        avail := avail + [i];
      }
      pool := Pool(poolSize, slots, avail, map[], map[]);
      FreshIsSafe(poolSize, found);
      pools := pools[repo := pool];
    }

    /** One step in one repository's pool leaves the others alone and all of them
        safe; a step that cannot be taken changes nothing. */
    method Step(repo: Text, a: Action) returns (taken: bool)
      requires Valid() && repo in pools
      modifies this
      ensures Valid() && pools.Keys == old(pools).Keys
      ensures forall r | r in pools && r != repo :: pools[r] == old(pools)[r]
      ensures taken <==> Next(old(pools)[repo], a).Some?
      ensures if taken then Next(old(pools)[repo], a) == Some(pools[repo]) else pools == old(pools)
    {
      var next := Next(pools[repo], a);
      taken := next.Some?;
      if taken {
        StepIsSafe(pools[repo], a, next.value);
        pools := pools[repo := next.value];
      }
    }
  }
}
