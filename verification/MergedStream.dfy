/** What a merged stream holds, chunk by chunk. */
module MergedStream {
  import opened Wrappers
  import opened ByteStrings
  import opened Varint
  import opened Entity
  import opened Streaming

  /** The targets of all chunks in the order they were sent. */
  function Sent(chunks: seq<Chunk>): seq<OptimizedTarget> {
    if chunks == [] then [] else Sent(chunks[..|chunks| - 1]) + chunks[|chunks| - 1].targets
  }

  lemma {:induction false} PutInTwo(list: seq<OptimizedTarget>, ts: seq<OptimizedTarget>, us: seq<OptimizedTarget>)
    ensures PutAll(PutAll(list, ts), us) == PutAll(list, ts + us)
    decreases |us|
  {
    if us == [] {
      assert ts + us == ts;
    } else {
      var front := us[..|us| - 1];
      PutInTwo(list, ts, front);
      assert (ts + us)[..|ts + us| - 1] == ts + front;
    }
  }

  lemma {:induction false} MergedTargets(chunks: seq<Chunk>)
    ensures MergedGraph(chunks).targets == PutAll([], Sent(chunks))
    decreases |chunks|
  {
    hide Merge;
    if chunks != [] {
      MergedTargets(chunks[..|chunks| - 1]);
      PutInTwo([], Sent(chunks[..|chunks| - 1]), chunks[|chunks| - 1].targets);
    }
  }

  /** `t` is the last of its ID in `sent`. */
  ghost predicate LastOfItsID(sent: seq<OptimizedTarget>, t: OptimizedTarget) {
    exists k :: 0 <= k < |sent| && sent[k] == t && forall m | k < m < |sent| :: sent[m].id != t.id
  }

  /** Every ID sent is there once, in the order the IDs first came, with the last
      target sent for it. */
  ghost predicate Holds(list: seq<OptimizedTarget>, sent: seq<OptimizedTarget>) {
    && (forall k | 0 <= k < |sent| :: PlaceOf(list, sent[k].id) < |list|)
    && (forall i | 0 <= i < |list| :: LastOfItsID(sent, list[i]))
    && (forall i, j | 0 <= i < j < |list| :: PlaceOf(sent, list[i].id) < PlaceOf(sent, list[j].id))
  }

  lemma PlaceStays(sent: seq<OptimizedTarget>, t: OptimizedTarget, id: int32)
    ensures PlaceOf(sent, id) < |sent| ==> PlaceOf(sent + [t], id) == PlaceOf(sent, id)
    ensures PlaceOf(sent, id) == |sent| && t.id == id ==> PlaceOf(sent + [t], id) == |sent|
  {
    var i, j := PlaceOf(sent, id), PlaceOf(sent + [t], id);
    assert forall k | 0 <= k < |sent| :: (sent + [t])[k] == sent[k];
    assert (sent + [t])[|sent|] == t;
  }

  lemma {:induction false} SamePlace(list: seq<OptimizedTarget>, other: seq<OptimizedTarget>, id: int32)
    requires |list| == |other| && forall k | 0 <= k < |list| :: list[k].id == other[k].id
    ensures PlaceOf(list, id) == PlaceOf(other, id)
  {
    var i, j := PlaceOf(list, id), PlaceOf(other, id);
    assert i < |list| ==> other[i].id == id;
    assert j < |list| ==> list[j].id == id;
  }

  lemma LastStays(sent: seq<OptimizedTarget>, t: OptimizedTarget, u: OptimizedTarget)
    requires LastOfItsID(sent, u) && u.id != t.id
    ensures LastOfItsID(sent + [t], u)
  {
    var k :| 0 <= k < |sent| && sent[k] == u && forall m | k < m < |sent| :: sent[m].id != u.id;
    var more := sent + [t];
    assert more[k] == u;
    forall m | k < m < |more| ensures more[m].id != u.id {
      assert m < |sent| ==> more[m] == sent[m];
    }
  }

  lemma LastIsLast(sent: seq<OptimizedTarget>, t: OptimizedTarget)
    ensures LastOfItsID(sent + [t], t)
  {
    assert (sent + [t])[|sent|] == t;
  }

  lemma InSent(sent: seq<OptimizedTarget>, t: OptimizedTarget)
    requires LastOfItsID(sent, t)
    ensures PlaceOf(sent, t.id) < |sent|
  {
  }

  lemma HoldsReplaced(list: seq<OptimizedTarget>, sent: seq<OptimizedTarget>, t: OptimizedTarget)
    requires Holds(list, sent) && PlaceOf(list, t.id) < |list|
    ensures Holds(list[PlaceOf(list, t.id) := t], sent + [t])
  {
    hide LastOfItsID, PlaceOf;
    var at := PlaceOf(list, t.id);
    var list', more := list[at := t], sent + [t];
    forall k | 0 <= k < |more| ensures PlaceOf(list', more[k].id) < |list'| {
      SamePlace(list, list', more[k].id);
      assert k < |sent| ==> more[k] == sent[k];
    }
    forall i | 0 <= i < |list| ensures LastOfItsID(more, list'[i]) &&
        PlaceOf(more, list'[i].id) == PlaceOf(sent, list[i].id) {
      InSent(sent, list[i]);
      PlaceStays(sent, t, list[i].id);
      if i == at {
        LastIsLast(sent, t);
      } else {
        assert if i < at then PlaceOf(sent, list[i].id) < PlaceOf(sent, list[at].id)
               else PlaceOf(sent, list[at].id) < PlaceOf(sent, list[i].id);
        LastStays(sent, t, list[i]);
      }
    }
  }

  lemma NotSent(sent: seq<OptimizedTarget>, id: int32)
    requires forall k | 0 <= k < |sent| :: sent[k].id != id
    ensures PlaceOf(sent, id) == |sent|
  {
  }

  lemma HoldsAppended(list: seq<OptimizedTarget>, sent: seq<OptimizedTarget>, t: OptimizedTarget)
    requires Holds(list, sent) && PlaceOf(list, t.id) == |list|
    ensures Holds(list + [t], sent + [t])
  {
    hide LastOfItsID, PlaceOf;
    var list', more := list + [t], sent + [t];
    assert forall k | 0 <= k < |sent| :: sent[k].id != t.id;
    NotSent(sent, t.id);
    PlaceStays(sent, t, t.id);
    LastIsLast(sent, t);
    AllPlaced(list, sent, t);
    forall i | 0 <= i < |list|
      ensures LastOfItsID(more, list[i]) && PlaceOf(more, list[i].id) == PlaceOf(sent, list[i].id) < |sent|
    {
      KeptApart(list, sent, t, i);
    }
    assert list'[..|list|] == list && list'[|list|] == t;
    OrderKept(list, sent, t);
  }

  lemma OrderKept(list: seq<OptimizedTarget>, sent: seq<OptimizedTarget>, t: OptimizedTarget)
    requires forall i | 0 <= i < |list| :: PlaceOf(sent + [t], list[i].id) == PlaceOf(sent, list[i].id) < |sent|
    requires PlaceOf(sent + [t], t.id) == |sent|
    requires forall i, j | 0 <= i < j < |list| :: PlaceOf(sent, list[i].id) < PlaceOf(sent, list[j].id)
    ensures forall i, j | 0 <= i < j < |list + [t]| ::
        PlaceOf(sent + [t], (list + [t])[i].id) < PlaceOf(sent + [t], (list + [t])[j].id)
  {
    hide PlaceOf;
    var list', more := list + [t], sent + [t];
    forall i, j | 0 <= i < j < |list'| ensures PlaceOf(more, list'[i].id) < PlaceOf(more, list'[j].id) {
      assert list'[i] == list[i];
      if j < |list| {
        assert list'[j] == list[j];
      }
    }
  }

  lemma AllPlaced(list: seq<OptimizedTarget>, sent: seq<OptimizedTarget>, t: OptimizedTarget)
    requires (forall k | 0 <= k < |sent| :: PlaceOf(list, sent[k].id) < |list|) && PlaceOf(list, t.id) == |list|
    ensures forall k | 0 <= k < |sent + [t]| :: PlaceOf(list + [t], (sent + [t])[k].id) < |list + [t]|
  {
    hide PlaceOf;
    forall k | 0 <= k < |sent + [t]| ensures PlaceOf(list + [t], (sent + [t])[k].id) < |list + [t]| {
      PlaceStays(list, t, (sent + [t])[k].id);
    }
  }

  lemma KeptApart(list: seq<OptimizedTarget>, sent: seq<OptimizedTarget>, t: OptimizedTarget, i: nat)
    requires i < |list| && LastOfItsID(sent, list[i]) && PlaceOf(list, t.id) == |list|
    ensures LastOfItsID(sent + [t], list[i])
    ensures PlaceOf(sent + [t], list[i].id) == PlaceOf(sent, list[i].id) < |sent|
  {
    hide LastOfItsID;
    assert list[i].id != t.id;
    InSent(sent, list[i]);
    PlaceStays(sent, t, list[i].id);
    LastStays(sent, t, list[i]);
  }

  lemma {:induction false} PutAllHolds(sent: seq<OptimizedTarget>)
    ensures Holds(PutAll([], sent), sent)
    decreases |sent|
  {
    if sent != [] {
      var front, t := sent[..|sent| - 1], sent[|sent| - 1];
      PutAllHolds(front);
      assert sent == front + [t];
      var list := PutAll([], front);
      hide Holds, PutAll;
      if PlaceOf(list, t.id) < |list| {
        HoldsReplaced(list, front, t);
      } else {
        HoldsAppended(list, front, t);
      }
    }
  }

  /** The merged targets are the last ones sent for their IDs, in the order the
      IDs first came. */
  lemma MergedIsLastSent(chunks: seq<Chunk>)
    ensures Holds(MergedGraph(chunks).targets, Sent(chunks))
  {
    hide Holds;
    MergedTargets(chunks);
    PutAllHolds(Sent(chunks));
  }

  // ---- Metadata ----

  /** Some chunk from `lo` on has a text for `k`. */
  ghost predicate Tells(select: Metadata -> Names, chunks: seq<Chunk>, lo: nat, k: int32) {
    exists c :: lo <= c < |chunks| && k in select(MetadataOf(chunks[c]))
  }

  /** `named` has a text for `k` exactly when some chunk has, and the one of the
      last chunk that has. */
  ghost predicate NamedByLast(named: Names, select: Metadata -> Names, chunks: seq<Chunk>, k: int32) {
    && (k in named <==> Tells(select, chunks, 0, k))
    && forall c | 0 <= c < |chunks| && k in select(MetadataOf(chunks[c])) && !Tells(select, chunks, c + 1, k) ::
         k in named && named[k] == select(MetadataOf(chunks[c]))[k]
  }

  lemma LastChunkWins(select: Metadata -> Names, chunks: seq<Chunk>, k: int32, named: Names)
    requires chunks != [] && NamedByLast(named, select, chunks[..|chunks| - 1], k)
    ensures NamedByLast(named + select(MetadataOf(chunks[|chunks| - 1])), select, chunks, k)
  {
    hide Tells, MetadataOf;
    var front, last := chunks[..|chunks| - 1], chunks[|chunks| - 1];
    forall lo: nat
      ensures Tells(select, chunks, lo, k) <==>
              Tells(select, front, lo, k) || (lo < |chunks| && k in select(MetadataOf(last)))
    {
      TellsMore(select, chunks, lo, k);
    }
    forall c | 0 <= c < |front| ensures front[c] == chunks[c] {
    }
  }

  lemma {:induction false} LastTextWins(select: Metadata -> Names, chunks: seq<Chunk>, k: int32)
    requires forall a, b :: select(Merge(a, b)) == select(a) + select(b)
    requires select(NO_METADATA) == map[]
    ensures NamedByLast(select(MergedGraph(chunks).metadata), select, chunks, k)
    decreases |chunks|
  {
    hide Merge, PutAll, NamedByLast, MetadataOf;
    if chunks == [] {
      NothingNamed(select, k);
    } else {
      var front, last := chunks[..|chunks| - 1], chunks[|chunks| - 1];
      LastTextWins(select, front, k);
      LastChunkWins(select, chunks, k, select(MergedGraph(front).metadata));
      assert MergedGraph(chunks).metadata == Merge(MergedGraph(front).metadata, MetadataOf(last));
    }
  }

  lemma NothingNamed(select: Metadata -> Names, k: int32)
    ensures NamedByLast(map[], select, [], k)
  {
  }

  lemma TellsMore(select: Metadata -> Names, chunks: seq<Chunk>, lo: nat, k: int32)
    requires chunks != []
    ensures Tells(select, chunks, lo, k) <==>
            || Tells(select, chunks[..|chunks| - 1], lo, k)
            || (lo < |chunks| && k in select(MetadataOf(chunks[|chunks| - 1])))
  {
    var front := chunks[..|chunks| - 1];
    forall c | lo <= c < |front| ensures front[c] == chunks[c] {
    }
    if c :| lo <= c < |front| && k in select(MetadataOf(front[c])) {
      assert k in select(MetadataOf(chunks[c]));
    }
    if c :| lo <= c < |chunks| && k in select(MetadataOf(chunks[c])) {
      assert c < |front| ==> k in select(MetadataOf(front[c]));
    }
  }

  function TargetNames(m: Metadata): Names {
    m.targetNames
  }

  function RuleTypes(m: Metadata): Names {
    m.ruleTypes
  }

  function Tags(m: Metadata): Names {
    m.tags
  }

  function AttributeNames(m: Metadata): Names {
    m.attributeNames
  }

  function AttributeValues(m: Metadata): Names {
    m.attributeValues
  }

  /** In each of the five maps the last text sent for a number is the one kept. */
  lemma MergedIsLastText(chunks: seq<Chunk>, k: int32)
    ensures var meta := MergedGraph(chunks).metadata;
      && NamedByLast(meta.targetNames, TargetNames, chunks, k) && NamedByLast(meta.ruleTypes, RuleTypes, chunks, k)
      && NamedByLast(meta.tags, Tags, chunks, k) && NamedByLast(meta.attributeNames, AttributeNames, chunks, k)
      && NamedByLast(meta.attributeValues, AttributeValues, chunks, k)
  {
    hide NamedByLast, MergedGraph;
    LastTextWins(TargetNames, chunks, k);
    LastTextWins(RuleTypes, chunks, k);
    LastTextWins(Tags, chunks, k);
    LastTextWins(AttributeNames, chunks, k);
    LastTextWins(AttributeValues, chunks, k);
  }
}
