/** What the comparison reads of a file is what it reads of the columns that were
    written to it, block starts and digests included. */
module FileSnapshot {
  import opened Wrappers
  import opened ByteStrings
  import opened Varint
  import opened Words
  import opened IntColumns
  import opened Dict
  import opened FlagColumn
  import opened Container
  import opened Blob
  import opened BlobRoundTrip
  import opened Snapshot
  import opened GraphColumns
  import opened EncodedSnapshot
  import GraphRows

  // ---- Blocks ----

  /** `BlockCount`, from the directory alone. */
  function BlockCount(b: Opened): nat {
    match Find(b.entries, COL_BLOCK_DIGEST)
    case None => 0
    case Some(e) => e.rawSize / 8
  }

  /** `BlockDigests`, straight from the file. */
  function BlockDigests(b: Opened): seq<nat>
    requires Readable(b)
  {
    match Find(b.entries, COL_BLOCK_DIGEST)
    case None => []
    case Some(e) => GetOffsets(b.data[e.offset..e.offset + e.compressedSize], e.compressedSize / 8)
  }

  /** `BlockStart`: zero when the column cannot be read or is too short. */
  function BlockStart(z: Codec, b: Opened, i: nat): int
    requires Readable(b)
  {
    match Column(z, b, 20)
    case None => 0
    case Some(data) => var starts := Sums(ReadAll(data), 0); if i < |starts| then starts[i] else 0
  }

  // ---- Nodes ----

  /** A number column at a node, zero past its end. */
  function NumberAt(ids: seq<int32>, i: nat): int32 {
    if i < |ids| then ids[i] else 0
  }

  function ListOf(lists: seq<seq<int32>>, i: nat): seq<int32> {
    if i < |lists| then lists[i] else []
  }

  /** A node's attributes by text; of two with one name the later. */
  function AttrTexts(d: Decoded, names: seq<int32>, values: seq<int32>): map<Text, Text> {
    if names == [] || |values| < |names| then map[]
    else
      var n := |names| - 1;
      AttrTexts(d, names[..n], values[..n])[GraphRows.TextAt(d.attrNameDict, names[n]) :=
          GraphRows.TextAt(d.attrValueDict, values[n])]
  }

  function KeyOf(d: Decoded, i: nat): Key {
    Key(GraphRows.TextAt(d.pkgDict, NumberAt(d.pkgIDs, i)), GraphRows.TextAt(d.nameDict, NumberAt(d.nameIDs, i)))
  }

  /** What the comparison reads of an opened file. */
  function ReadSnapshot(z: Codec, b: Opened): Option<Snapshot>
    requires Readable(b)
  {
    var d :- DecodeColumns(z, b);
    var n, digests := b.header.nodeCount, BlockDigests(b);
    Some(Snapshot(
           seq(n, i requires 0 <= i < n => KeyOf(d, i)), b.header.hashBytes, d.hashes, d.flags.hashEmpty,
           d.ruleTypeDict, d.ruleTypeIDs, d.deps,
           seq(n, i requires 0 <= i < n => GraphRows.TextsAt(d.tagDict, ListOf(d.tags, i))),
           seq(n, i requires 0 <= i < n => AttrTexts(d, ListOf(d.attrNames, i), ListOf(d.attrValues, i))),
           seq(n, i requires 0 <= i < n => Up(d.flags.root, i)),
           seq(n, i requires 0 <= i < n => Up(d.flags.external, i)),
           seq(BlockCount(b), i requires 0 <= i < BlockCount(b) => BlockStart(z, b, i)), digests))
  }

  // ---- Round trip ----

  lemma DigestsRoundTrip(digests: seq<uint64>)
    ensures GetOffsets(PutOffsets(digests), |digests|) == digests
  {
    hide GetWord, PutOffsets;
    forall i | 0 <= i < |digests| ensures GetWord(PutOffsets(digests)[i * 8..i * 8 + 8]) == digests[i] {
      assert PutOffsets(digests) + [] == PutOffsets(digests);
      OffsetsRoundTrip(digests, [], i);
    }
  }

  /** The digest column is written raw. */
  lemma DigestEntry(z: Codec, c: Columns)
    requires |c.blockDigests| < TWO_31
    ensures var e := Find(EntriesOf(z, RawCols(c), HEADER_SIZE), COL_BLOCK_DIGEST);
      && e.Some? && e.value.codec == CODEC_RAW && e.value.rawSize == e.value.compressedSize == 8 * |c.blockDigests|
  {
    hide ColumnBytes, EntriesOf, AllStored;
    var cols := RawCols(c);
    ColumnData(c, COL_BLOCK_DIGEST);
    DistinctEntries(z, cols);
    EntryAt(z, cols, HEADER_SIZE, 18);
    FindAt(EntriesOf(z, cols, HEADER_SIZE), 18);
    BlocksAreColumns(c);
  }

  lemma BlocksAreColumns(c: Columns)
    ensures ColumnBytes(c, COL_BLOCK_DIGEST) == PutOffsets(c.blockDigests)
    ensures ColumnBytes(c, 20) == PutAll(Deltas(c.blockStarts, 0))
  {
  }

  lemma DigestsRead(z: Codec, c: Columns, b: Opened)
    requires Readable(b) && b.entries == EntriesOf(z, RawCols(c), HEADER_SIZE) && |c.blockDigests| < TWO_31
    requires Column(z, b, COL_BLOCK_DIGEST) == Some(ColumnBytes(c, COL_BLOCK_DIGEST))
    ensures BlockDigests(b) == c.blockDigests && BlockCount(b) == |c.blockDigests|
  {
    hide EntriesOf, RawCols, ColumnBytes, GetOffsets, PutOffsets, Find;
    DigestEntry(z, c);
    BlocksAreColumns(c);
    DigestsRoundTrip(c.blockDigests);
  }

  lemma StartsRead(z: Codec, c: Columns, b: Opened, i: nat)
    requires Readable(b) && Column(z, b, 20) == Some(ColumnBytes(c, 20)) && i < |c.blockStarts|
    ensures BlockStart(z, b, i) == c.blockStarts[i]
  {
    hide Column, ColumnBytes, Sums, ReadAll, PutAll, Deltas;
    BlocksAreColumns(c);
    DeltaRoundTrip(c.blockStarts);
  }

  lemma {:induction false} AttrTextsAre(c: Columns, names: seq<int32>, values: seq<int32>)
    requires |names| == |values|
    ensures AttrTexts(DecodedOf(c), names, values) == TextAttrs(c, names, values)
    decreases |names|
  {
    hide FlagBytes, DecodeFlags;
    if names != [] {
      AttrTextsAre(c, names[..|names| - 1], values[..|values| - 1]);
    }
  }

  /** The fields of node `i` are those of the columns. */
  lemma NodeIsRead(c: Columns, i: nat)
    requires Rectangular(c) && i < c.NodeCount()
    ensures KeyOf(DecodedOf(c), i) == KeyAt(c, i)
    ensures GraphRows.TextsAt(DecodedOf(c).tagDict, ListOf(DecodedOf(c).tags, i)) ==
        GraphRows.TextsAt(c.tagDict, c.tags[i])
    ensures AttrTexts(DecodedOf(c), ListOf(DecodedOf(c).attrNames, i), ListOf(DecodedOf(c).attrValues, i)) ==
            TextAttrs(c, c.attrNames[i], c.attrValues[i])
  {
    hide FlagBytes, DecodeFlags, TextAttrs, AttrTexts;
    AttrTextsAre(c, c.attrNames[i], c.attrValues[i]);
  }

  /** The columns of a written file come back as they were. */
  lemma WrittenColumns(z: Codec, c: Columns, id: uint64)
    requires Lossless(z) && Rectangular(c) && Addressable(z, c) && Opens(z, c) && 0 < id <= 20
    ensures Open(z, GraphFile(z, c)).Some?
    ensures var b := Open(z, GraphFile(z, c)).value;
      b.entries == EntriesOf(z, RawCols(c), HEADER_SIZE) && Column(z, b, id) == Some(ColumnBytes(c, id))
  {
    hide ColumnBytes, RawCols, Lossless, ShortTexts, ShortLists, FileBytes, Open, WellPut, WithinLimits, Column, DataOf;
    EncoderIsWellPut(c);
    WrittenFileOpens(z, HeaderOf(c), RawCols(c));
    ColumnsRoundTrip(z, HeaderOf(c), RawCols(c), id);
    ColumnData(c, id);
  }

  lemma HeaderIs(c: Columns)
    requires Rectangular(c)
    ensures HeaderOf(c).nodeCount == c.NodeCount() && HeaderOf(c).hashBytes == c.stride
  {
    hide Degrees;
  }

  /** Opening the file of a graph's columns gives the comparison what the columns
      hold, exactly when the file is within the limits and its dictionaries are
      within theirs. */
  lemma FileIsSnapshot(z: Codec, c: Columns)
    requires Lossless(z) && Rectangular(c) && Addressable(z, c) && |c.blockStarts| == |c.blockDigests|
    ensures Open(z, GraphFile(z, c)).Some? <==> Opens(z, c)
    ensures Opens(z, c) ==>
      ReadSnapshot(z, Open(z, GraphFile(z, c)).value) == if DictsFit(c) then Some(SnapshotOf(c)) else None
  {
    GraphFileRoundTrip(z, c);
    if Opens(z, c) {
      WrittenColumns(z, c, COL_BLOCK_DIGEST);
      WrittenColumns(z, c, 20);
      HeaderIs(c);
      var b := Open(z, GraphFile(z, c)).value;
      SnapshotParts(z, c, b);
    }
  }

  lemma SnapshotParts(z: Codec, c: Columns, b: Opened)
    requires Readable(b) && Rectangular(c) && b.entries == EntriesOf(z, RawCols(c), HEADER_SIZE)
    requires Column(z, b, COL_BLOCK_DIGEST) == Some(ColumnBytes(c, COL_BLOCK_DIGEST))
    requires Column(z, b, 20) == Some(ColumnBytes(c, 20)) && |c.blockStarts| == |c.blockDigests|
    requires b.header.nodeCount == c.NodeCount() && b.header.hashBytes == c.stride
    requires DecodeColumns(z, b) == if DictsFit(c) then Some(DecodedOf(c)) else None
    ensures ReadSnapshot(z, b) == if DictsFit(c) then Some(SnapshotOf(c)) else None
  {
    hide Column, ColumnBytes, RawCols, EntriesOf, DecodeColumns, DictsFit, Readable, BlockDigests, BlockCount,
      BlockStart, FlagBytes, DecodeFlags, KeyOf, KeyAt, TextAttrs, AttrTexts, Up, GraphRows.TextsAt, ShortTexts;
    DigestsRead(z, c, b);
    forall i: nat | i < |c.blockStarts| ensures BlockStart(z, b, i) == c.blockStarts[i] {
      StartsRead(z, c, b, i);
    }
    forall i: nat | i < c.NodeCount()
      ensures KeyOf(DecodedOf(c), i) == KeyAt(c, i)
      ensures GraphRows.TextsAt(DecodedOf(c).tagDict, ListOf(DecodedOf(c).tags, i)) ==
          GraphRows.TextsAt(c.tagDict, c.tags[i])
      ensures AttrTexts(DecodedOf(c), ListOf(DecodedOf(c).attrNames, i), ListOf(DecodedOf(c).attrValues, i)) ==
              TextAttrs(c, c.attrNames[i], c.attrValues[i])
    {
      NodeIsRead(c, i);
    }
    if DictsFit(c) {
      var r, s := ReadSnapshot(z, b).value, SnapshotOf(c);
      assert r.keys == s.keys && r.tags == s.tags && r.attrs == s.attrs;
      assert r.roots == s.roots && r.externals == s.externals;
      assert r.blockStarts == s.blockStarts && r.blockDigests == s.blockDigests;
      assert r.stride == s.stride && r.hashes == s.hashes && r.emptyBits == s.emptyBits && r.deps == s.deps;
      assert r.ruleTypeDict == s.ruleTypeDict && r.ruleTypeIDs == s.ruleTypeIDs;
    }
  }
}
