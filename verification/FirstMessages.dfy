/** When the first metadata message stays within the limit. It carries the three
    small maps, which nothing counts, on top of its piece of the first large map. */
module FirstMessages {
  import opened ByteStrings
  import opened Varint
  import opened Entity
  import opened Sorting
  import opened Splitting
  import opened Streaming
  import opened Wire

  /** Whatever piece the first message starts with, it is within the limit. */
  ghost predicate AlwaysWithin(meta: Metadata, maxBytes: int) {
    forall piece | MayLead(Lead(meta), maxBytes, piece) :: SmallBytes(meta) + WireBytes(piece) <= maxBytes
  }

  /** Going on from a started cut keeps the groups that are closed. */
  lemma {:induction false} GoOn<T>(size: T -> nat, maxBytes: int, items: seq<T>, groups: seq<seq<T>>, current: seq<T>,
                                   i: nat)
    returns (all: seq<seq<T>>)
    requires i <= |items| && current != [] && Progress(size, maxBytes, items, groups, current, i)
    ensures IsSplit(size, maxBytes, items, all) && Greedy(size, maxBytes, all) && groups < all
    decreases |items| - i
  {
    hide Progress, IsSplit, Greedy, Bytes;
    if i == |items| {
      StartedIsLong(size, maxBytes, items, groups, current, i);
      Closed(size, maxBytes, items, groups, current);
      all := groups + [current];
    } else if Bytes(size, current) + size(items[i]) > maxBytes {
      Closing(size, maxBytes, items, groups, current, i);
      all := GoOn(size, maxBytes, items, groups + [current], [items[i]], i + 1);
    } else {
      Growing(size, maxBytes, items, groups, current, i);
      all := GoOn(size, maxBytes, items, groups, current + [items[i]], i + 1);
    }
  }

  lemma StartedIsLong<T>(size: T -> nat, maxBytes: int, items: seq<T>, groups: seq<seq<T>>, current: seq<T>, i: nat)
    requires current != [] && Progress(size, maxBytes, items, groups, current, i)
    ensures i > 0
  {
  }

  /** A first group that fits and that the next item overfills begins a greedy
      split. */
  lemma StartWith<T>(size: T -> nat, maxBytes: int, first: seq<T>, rest: seq<T>) returns (all: seq<seq<T>>)
    requires first != [] && Fits(size, maxBytes, first)
    requires rest != [] ==> Bytes(size, first) + size(rest[0]) > maxBytes
    ensures IsSplit(size, maxBytes, first + rest, all) && Greedy(size, maxBytes, all) && all != [] && all[0] == first
  {
    var items := first + rest;
    assert items[..|first|] == first;
    assert Progress(size, maxBytes, items, [], first, |first|) by {
      assert [first][..0] == [];
    }
    hide Progress, IsSplit, Greedy, Bytes, Fits;
    if rest == [] {
      Closed(size, maxBytes, items, [], first);
      all := [] + [first];
    } else {
      Closing(size, maxBytes, items, [], first, |first|);
      all := GoOn(size, maxBytes, items, [] + [first], [items[|first|]], |first| + 1);
    }
  }

  /** A set's members in some order. */
  ghost function Listing(keys: set<int32>): (list: seq<int32>)
    ensures NoDuplicates(list) && forall k :: k in list <==> k in keys
  {
    if keys == {} then []
    else
      var k :| k in keys;
      Listing(keys - {k}) + [k]
  }

  lemma PieceIsListed(m: Names, maxBytes: int, piece: Names, first: seq<int32>)
    requires m != map[] && MayLead(m, maxBytes, piece)
    requires NoDuplicates(first) && forall k :: k in first <==> k in piece.Keys
    ensures first != [] && piece == Restrict(m, first) && Fits(Sizes(m), maxBytes, first)
    ensures WireBytes(piece) == Bytes(Sizes(m), first)
  {
    WireBytesOfKeys(m, first);
    assert Restrict(m, first) == piece;
    hide WireBytes, Bytes, Sizes;
    var k :| k in piece;
    assert k in first;
  }

  /** The keys outside the piece, beginning with one that overfills it. */
  ghost function Others(m: Names, maxBytes: int, piece: Names): (rest: seq<int32>)
    requires MayLead(m, maxBytes, piece)
    ensures NoDuplicates(rest) && forall k :: k in rest <==> k in m && k !in piece
    ensures rest != [] ==> WireBytes(piece) + EntryBytes(rest[0], m[rest[0]]) > maxBytes
  {
    if piece == m then []
    else
      var k :| k in m && k !in piece && WireBytes(piece) + EntryBytes(k, m[k]) > maxBytes;
      [k] + Listing(m.Keys - piece.Keys - {k})
  }

  /** Every piece that may lead does lead, in some order of the map's entries. */
  lemma EveryPieceLeads(m: Names, maxBytes: int, piece: Names) returns (groups: seq<Names>, keys: seq<seq<int32>>)
    requires m != map[] && MayLead(m, maxBytes, piece)
    ensures Cuts(m, maxBytes, groups, keys) && groups != [] && groups[0] == piece
  {
    var first, rest := Listing(piece.Keys), Others(m, maxBytes, piece);
    PieceIsListed(m, maxBytes, piece, first);
    assert piece.Keys <= m.Keys;
    if rest != [] {
      SizeOf(m, rest[0]);
    }
    hide EntryBytes, WireBytes, Bytes, Sizes, Greedy, Fits, MayLead, Others, Listing, IsSplit;
    keys := StartWith(Sizes(m), maxBytes, first, rest);
    DistinctTogether(first, rest);
    assert forall k :: k in first + rest <==> k in m;
    groups := SplitIsCut(m, maxBytes, first + rest, keys);
  }

  lemma DistinctTogether(first: seq<int32>, rest: seq<int32>)
    requires NoDuplicates(first) && NoDuplicates(rest) && forall k | k in first :: k !in rest
    ensures NoDuplicates(first + rest)
  {
    var all := first + rest;
    forall i, j | 0 <= i < j < |all| ensures all[i] != all[j] {
      if i < |first| <= j {
        assert first[i] in first && rest[j - |first|] in rest;
      }
    }
  }

  lemma SplitIsCut(m: Names, maxBytes: int, items: seq<int32>, keys: seq<seq<int32>>) returns (groups: seq<Names>)
    requires IsSplit(Sizes(m), maxBytes, items, keys) && Greedy(Sizes(m), maxBytes, keys) && keys != []
    requires NoDuplicates(items) && forall k :: k in items <==> k in m
    ensures Cuts(m, maxBytes, groups, keys) && groups != [] && groups[0] == Restrict(m, keys[0])
  {
    hide Sizes, Greedy, Fits, Restrict, Flatten;
    groups := seq(|keys|, i requires 0 <= i < |keys| => Restrict(m, keys[i]));
  }

  /** The first message is within the limit exactly when its small maps leave room
      for its piece. */
  lemma FirstMessageBytes(meta: Metadata, piece: Names)
    ensures MessageBytes(FirstMessage(meta, piece)) == SmallBytes(meta) + WireBytes(piece)
  {
    NoWireBytes();
  }

  /** The pieces that a map is ever cut to first. */
  ghost predicate ComesFirst(m: Names, maxBytes: int, piece: Names) {
    if m == map[] then piece == map[]
    else exists groups, keys :: Cuts(m, maxBytes, groups, keys) && groups != [] && groups[0] == piece
  }

  lemma LeadersComeFirst(m: Names, maxBytes: int, piece: Names)
    ensures MayLead(m, maxBytes, piece) <==> ComesFirst(m, maxBytes, piece)
  {
    if m == map[] {
      assert MayLead(m, maxBytes, piece) ==> piece == map[];
      assert PieceFits(m, maxBytes);
    } else if MayLead(m, maxBytes, piece) {
      var groups, keys := EveryPieceLeads(m, maxBytes, piece);
    } else if ComesFirst(m, maxBytes, piece) {
      hide MayLead, Cuts;
      var groups, keys :| Cuts(m, maxBytes, groups, keys) && groups != [] && groups[0] == piece;
      FirstPieceLeads(m, maxBytes, groups, keys);
    }
  }

  /** Exactly when the first message is within the limit in whatever order the
      entries come: every piece that may lead leaves room for the small maps. */
  lemma FirstMessageWithin(meta: Metadata, maxBytes: int)
    ensures AlwaysWithin(meta, maxBytes) <==>
            forall piece | ComesFirst(Lead(meta), maxBytes, piece) ::
                forall o | ListsAll(o, FirstMessage(meta, piece)) ::
                    |MetadataWire(FirstMessage(meta, piece), o)| <= maxBytes
  {
    hide MayLead, ComesFirst, WireBytes, MessageBytes, FirstMessage, Lead, SmallBytes, ListsAll, MetadataWire;
    forall piece
      ensures MayLead(Lead(meta), maxBytes, piece) <==> ComesFirst(Lead(meta), maxBytes, piece)
      ensures (forall o | ListsAll(o, FirstMessage(meta, piece)) ::
                 |MetadataWire(FirstMessage(meta, piece), o)| <= maxBytes) <==>
              SmallBytes(meta) + WireBytes(piece) <= maxBytes
    {
      LeadersComeFirst(Lead(meta), maxBytes, piece);
      FirstMessageBytes(meta, piece);
      SomeOrder(FirstMessage(meta, piece));
      forall o | ListsAll(o, FirstMessage(meta, piece))
        ensures |MetadataWire(FirstMessage(meta, piece), o)| == SmallBytes(meta) + WireBytes(piece)
      {
        MessageIsMeasured(FirstMessage(meta, piece), o);
      }
    }
  }

  lemma SomeOrder(m: Metadata)
    ensures exists o :: ListsAll(o, m)
  {
    var o := Orders(Listing(m.targetNames.Keys), Listing(m.ruleTypes.Keys), Listing(m.tags.Keys),
                    Listing(m.attributeNames.Keys), Listing(m.attributeValues.Keys));
    assert ListsAll(o, m);
  }

  /** A rule type and a target name that would each fit a message of their own. */
  const TOGETHER_TOO_LONG := NO_METADATA.(targetNames := map[0 := [97]], ruleTypes := map[0 := [98]])

  /** Both entries take 7 bytes and the limit is 10, yet the first message takes
      14 in every order. */
  lemma SmallMapsOverfill(piece: Names)
    requires MayLead(Lead(TOGETHER_TOO_LONG), 10, piece)
    ensures EntryBytes(0, [97]) == EntryBytes(0, [98]) == 7
    ensures forall o | ListsAll(o, FirstMessage(TOGETHER_TOO_LONG, piece)) ::
        |MetadataWire(FirstMessage(TOGETHER_TOO_LONG, piece), o)| == 14
    ensures !AlwaysWithin(TOGETHER_TOO_LONG, 10)
  {
    var names, types: Names := map[0 := [97]], map[0 := [98]];
    assert EntryBytes(0, [97]) == EntryBytes(0, [98]) == 7;
    hide EntryBytes;
    assert piece == names by {
      var k :| k in piece;
      assert k == 0;
    }
    OneEntry(0, [97]);
    OneEntry(0, [98]);
    NoWireBytes();
    hide WireBytes, MayLead, MessageBytes, FirstMessage, ListsAll, MetadataWire;
    FirstMessageBytes(TOGETHER_TOO_LONG, piece);
    forall o | ListsAll(o, FirstMessage(TOGETHER_TOO_LONG, piece))
      ensures |MetadataWire(FirstMessage(TOGETHER_TOO_LONG, piece), o)| == 14
    {
      MessageIsMeasured(FirstMessage(TOGETHER_TOO_LONG, piece), o);
    }
  }

  lemma OneEntry(k: int32, v: Text)
    ensures WireBytes(map[k := v]) == EntryBytes(k, v)
  {
    hide EntryBytes;
    var m: Names := map[k := v];
    assert k in m && m - {k} == map[];
    WireBytesWithout(m, k);
    NoWireBytes();
  }
}
