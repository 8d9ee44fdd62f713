/** Files of small graphs are always within the reader's limits. */
module SmallFiles {
  import opened Wrappers
  import opened ByteStrings
  import opened Varint
  import opened Words
  import opened IntColumns
  import opened Dict
  import L = ListColumns
  import opened FlagColumn
  import opened Container
  import opened Blob
  import opened BlobRoundTrip
  import opened GraphColumns

  // ---- How long what is written can be ----

  function Pow128(k: nat): nat {
    if k == 0 then 1 else 128 * Pow128(k - 1)
  }

  lemma {:induction false} UvarintBound(v: nat, k: nat)
    requires k > 0 && v < Pow128(k)
    ensures |PutUvarint(v)| <= k
    decreases k
  {
    if v >= 128 {
      assert k > 1;
      UvarintBound(v / 128, k - 1);
    }
  }

  /** A 64-bit number takes at most ten bytes. */
  lemma TenBytes(v: nat)
    requires v < TWO_64
    ensures |PutUvarint(v)| <= 10
  {
    assert Pow128(2) == 0x4000 && Pow128(4) == 0x1000_0000 && Pow128(6) == 0x400_0000_0000;
    assert Pow128(8) == 0x100_0000_0000_0000 && Pow128(10) == 0x40_0000_0000_0000_0000;
    UvarintBound(v, 10);
  }

  lemma {:induction false} NumbersBound(vs: seq<uint64>)
    ensures |PutAll(vs)| <= 10 * |vs|
  {
    hide PutUvarint;
    if vs != [] {
      TenBytes(vs[0]);
      NumbersBound(vs[1..]);
    }
  }

  lemma {:induction false} EntriesBound(strs: seq<Text>, i: nat, prev: Text)
    requires forall k | 0 <= k < |strs| :: |strs[k]| < TWO_63
    ensures |Entries(strs, i, prev)| <= 20 * |strs| + TotalBytes(strs)
  {
    hide PutUvarint, Shared;
    if strs != [] {
      var n := Shared(i, prev, strs[0]);
      TenBytes(n);
      TenBytes(|strs[0]| - n);
      EntriesBound(strs[1..], i + 1, strs[0]);
    }
  }

  lemma DictBound(strs: seq<Text>)
    requires ShortTexts(strs)
    ensures |FrontCoded(strs)| <= 10 + 28 * |strs| + TotalBytes(strs)
  {
    hide PutUvarint, Entries, Restarts, PutOffsets;
    FewRestarts(strs, 0, [], 0);
    TenBytes(|Restarts(strs, 0, [], 0)|);
    EntriesBound(strs, 0, []);
  }

  function TotalLength(lists: seq<seq<int32>>): nat {
    if lists == [] then 0 else |lists[0]| + TotalLength(lists[1..])
  }

  lemma {:induction false} ListBound(coding: L.Coding, i: int, list: seq<int32>, j: nat, prev: int32)
    ensures |L.ListBytes(coding, i, list, j, prev)| <= 10 * |list|
    decreases |list|
  {
    hide PutUvarint, Zigzag;
    if list != [] {
      TenBytes(Zigzag(L.Near(list[0], i)));
      TenBytes(Uint64(if coding.Absolute? then list[0] else Int32(list[0] - prev)));
      ListBound(coding, i, list[1..], j + 1, list[0]);
    }
  }

  lemma {:induction false} ListsBound(coding: L.Coding, lists: seq<seq<int32>>, i: nat)
    ensures |L.Column(coding, lists, i)| <= 10 * TotalLength(lists)
    decreases |lists|
  {
    hide L.ListBytes;
    if lists != [] {
      ListBound(coding, i, lists[0], 0, 0);
      ListsBound(coding, lists[1..], i + 1);
    }
  }

  // ---- Columns ----

  /** A bound on the bytes of a column, from its counts and texts alone. */
  ghost function ColumnBound(c: Columns, id: nat): nat {
    var n := c.NodeCount();
    match id
    case 1 => DictSize(c.pkgDict)
    case 2 => DictSize(c.nameDict)
    case 5 => |c.hashes|
    case 7 => 10 * TotalLength(c.deps)
    case 9 => DictSize(c.ruleTypeDict)
    case 11 => 10 * TotalLength(c.tags)
    case 12 => DictSize(c.tagDict)
    case 14 => 10 * TotalLength(c.attrNames)
    case 15 => 10 * TotalLength(c.attrValues)
    case 16 => DictSize(c.attrNameDict)
    case 17 => DictSize(c.attrValueDict)
    case 18 => 3 * ByteCount(n)
    case 19 => 8 * |c.blockDigests|
    case 20 => 10 * |c.blockStarts|
    case 22 => if c.fileHashes == map[] then 0 else |ColumnBytes(c, 22)|
    case _ => 10 * n
  }

  function DictSize(strs: seq<Text>): nat {
    10 + 28 * |strs| + TotalBytes(strs)
  }

  lemma ColumnIsBound(c: Columns, id: nat)
    requires Rectangular(c) && 0 < id <= 22 && id != 21 && (id == 22 ==> c.fileHashes != map[])
    ensures |ColumnBytes(c, id)| <= ColumnBound(c, id)
  {
    hide PutAll, FrontCoded, L.Column, TotalLength, TotalBytes, PutOffsets, Packed, ShortTexts, Deltas, NameDeltas,
      Plain;
    match id
    case 1 => DictBound(c.pkgDict);
    case 2 => DictBound(c.nameDict);
    case 3 => NumbersBound(Deltas(c.pkgIDs, 0));
    case 4 => NumbersBound(NameDeltas(c.pkgIDs, c.nameIDs, -1, 0));
    case 6 => NumbersBound(Plain(Degrees(c.deps)));
    case 7 => ListsBound(L.Relative, c.deps, 0);
    case 8 => NumbersBound(Plain(c.ruleTypeIDs));
    case 9 => DictBound(c.ruleTypeDict);
    case 10 => NumbersBound(Plain(Degrees(c.tags)));
    case 11 => ListsBound(L.Chained, c.tags, 0);
    case 12 => DictBound(c.tagDict);
    case 13 => NumbersBound(Plain(Degrees(c.attrNames)));
    case 14 => ListsBound(L.Absolute, c.attrNames, 0);
    case 15 => ListsBound(L.Absolute, c.attrValues, 0);
    case 16 => DictBound(c.attrNameDict);
    case 17 => DictBound(c.attrValueDict);
    case 20 => NumbersBound(Deltas(c.blockStarts, 0));
    case _ =>
  }

  const SMALL := 0x2_0000

  /** Every column is bound to take at most 128 KiB. */
  ghost predicate Small(c: Columns) {
    forall id: nat | 0 < id <= 22 && id != 21 :: ColumnBound(c, id) <= SMALL
  }

  lemma {:induction false} TotalBound(cols: seq<RawCol>, bound: nat)
    requires forall r | r in cols :: |r.data| <= bound
    ensures TotalData(cols) <= |cols| * bound
    decreases |cols|
  {
    if cols != [] {
      var front := cols[..|cols| - 1];
      assert cols[|cols| - 1] in cols;
      TotalBound(front, bound);
    }
  }

  lemma RawColsAreSmall(c: Columns)
    requires Rectangular(c) && Small(c)
    ensures |RawCols(c)| <= 21 && forall r | r in RawCols(c) :: |r.data| <= SMALL
  {
    hide ColumnBytes, ColumnBound;
    forall r | r in RawCols(c) ensures |r.data| <= SMALL {
      var k: nat :| k < ColumnCount(c) && RawCols(c)[k] == r;
      ColumnIsBound(c, ColumnId(k));
    }
  }

  lemma DictIsSmall(strs: seq<Text>)
    requires DictSize(strs) <= SMALL
    ensures DictFits(strs)
  {
    hide Entries, TotalBytes;
  }

  lemma DictsAreSmall(c: Columns)
    requires Small(c)
    ensures DictsFit(c)
  {
    hide DictFits, DictSize;
    assert ColumnBound(c, 1) <= SMALL && ColumnBound(c, 2) <= SMALL && ColumnBound(c, 9) <= SMALL;
    assert ColumnBound(c, 12) <= SMALL && ColumnBound(c, 16) <= SMALL && ColumnBound(c, 17) <= SMALL;
    DictIsSmall(c.pkgDict);
    DictIsSmall(c.nameDict);
    DictIsSmall(c.ruleTypeDict);
    DictIsSmall(c.tagDict);
    DictIsSmall(c.attrNameDict);
    DictIsSmall(c.attrValueDict);
  }

  /** Under every codec, the file of small columns is within the reader's limits
      and its dictionaries are within theirs. */
  lemma SmallIsAccepted(z: Codec, c: Columns)
    requires Rectangular(c) && Small(c)
    ensures Opens(z, c) && DictsFit(c)
  {
    hide Rectangular, Small, RawCols, FileBytes, DictsFit;
    RawColsAreSmall(c);
    TotalBound(RawCols(c), SMALL);
    DictsAreSmall(c);
  }

  // ---- A codec that does nothing ----

  const PLAIN := Codec(b => 0, d => d, (d, n) => Some(d))

  lemma PlainIsLossless()
    ensures Lossless(PLAIN)
  {
  }

  lemma {:induction false} PlainStored(cols: seq<RawCol>, bound: nat)
    requires forall r | r in cols :: |r.data| <= bound
    ensures |AllStored(PLAIN, cols)| <= |cols| * bound
  {
    hide Stored;
    if cols != [] {
      assert cols[0] in cols;
      PlainKeeps(cols[0]);
      PlainStored(cols[1..], bound);
      assert |cols| * bound == bound + |cols[1..]| * bound;
    }
  }

  lemma PlainKeeps(c: RawCol)
    ensures Stored(PLAIN, c) == c.data
  {
  }

  lemma {:induction false} DirectoryBound(entries: seq<ColEntry>)
    ensures |EntriesBytes(entries)| <= 41 * |entries|
  {
    hide PutUvarint;
    if entries != [] {
      var e := entries[0];
      TenBytes(e.id);
      TenBytes(e.offset);
      TenBytes(e.compressedSize);
      TenBytes(e.rawSize);
      DirectoryBound(entries[1..]);
    }
  }

  /** Small columns make a file that fits memory. */
  lemma PlainIsAddressable(c: Columns)
    requires Rectangular(c) && Small(c)
    ensures Addressable(PLAIN, c)
  {
    hide Rectangular, Small, RawCols, AllStored, EntriesOf, EntriesBytes, HeaderBytes, FooterBytes, PutUvarint;
    var cols := RawCols(c);
    RawColsAreSmall(c);
    PlainStored(cols, SMALL);
    DirectoryBound(EntriesOf(PLAIN, cols, HEADER_SIZE));
    TenBytes(|cols|);
  }
}
