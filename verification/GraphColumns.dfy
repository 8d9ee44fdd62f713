/** A graph in columns: everything the encoder works out of it, as the bytes of
    its columns, and back. */
module GraphColumns {
  import opened Wrappers
  import opened ByteStrings
  import opened Varint
  import opened Words
  import opened IntColumns
  import opened Totals
  import opened Dict
  import L = ListColumns
  import opened FlagColumn
  import opened StringMap
  import opened Container
  import opened Blob
  import opened BlobRoundTrip

  datatype Columns = Columns(
    stride: uint16, blockSize: uint64,
    pkgDict: seq<Text>, nameDict: seq<Text>, pkgIDs: seq<int32>, nameIDs: seq<int32>, hashes: Text,
    deps: seq<seq<int32>>, ruleTypeIDs: seq<int32>, ruleTypeDict: seq<Text>, tags: seq<seq<int32>>, tagDict: seq<Text>,
    attrNames: seq<seq<int32>>, attrValues: seq<seq<int32>>, attrNameDict: seq<Text>, attrValueDict: seq<Text>,
    roots: seq<bool>, externals: seq<bool>, hashEmpties: seq<bool>, blockDigests: seq<uint64>, blockStarts: seq<int32>,
    fileHashes: map<Text, Text>)
  {
    function NodeCount(): nat {
      |pkgIDs|
    }
  }

  predicate ShortLists(lists: seq<seq<int32>>, n: nat) {
    |lists| == n && forall k | 0 <= k < n :: |lists[k]| < TWO_31
  }

  predicate ShortTexts(texts: seq<Text>) {
    |texts| < TWO_31 && forall k | 0 <= k < |texts| :: |texts[k]| < TWO_63
  }

  /** One value per node in every column, and numbers that fit their width. */
  predicate Rectangular(c: Columns) {
    var n := c.NodeCount();
    && n < TWO_31 && |c.nameIDs| == n && |c.ruleTypeIDs| == n && |c.hashes| == n * c.stride
    && ShortLists(c.deps, n) && ShortLists(c.tags, n) && ShortLists(c.attrNames, n) && ShortLists(c.attrValues, n)
    && (forall k | 0 <= k < n :: |c.attrNames[k]| == |c.attrValues[k]|)
    && |c.roots| == n && |c.externals| == n && |c.hashEmpties| == n && |c.blockDigests| <= n
    && ShortTexts(c.pkgDict) && ShortTexts(c.nameDict) && ShortTexts(c.ruleTypeDict) && ShortTexts(c.tagDict)
    && ShortTexts(c.attrNameDict) && ShortTexts(c.attrValueDict)
    && |c.fileHashes| < TWO_63 && (forall k | k in c.fileHashes :: |k| < TWO_63 && |c.fileHashes[k]| < TWO_63)
    && StrideKnown(c.stride) && IsPowerOfTwo(c.blockSize)
  }

  // ---- Writing ----

  function Degrees(lists: seq<seq<int32>>): (degs: seq<int32>)
    ensures |degs| == |lists|
  {
    seq(|lists|, k requires 0 <= k < |lists| => Int32(|lists[k]|))
  }

  function Ints(vals: seq<int32>): Text {
    PutAll(IntColumns.Plain(vals))
  }

  function FlagBytes(c: Columns): Text {
    Pack(c.roots) + Pack(c.externals) + Pack(c.hashEmpties)
  }

  function NameBytes(c: Columns): Text {
    if |c.nameIDs| == |c.pkgIDs| then PutAll(NameDeltas(c.pkgIDs, c.nameIDs, -1, 0)) else []
  }

  /** The bytes of every column. */
  ghost function ColumnBytes(c: Columns, id: nat): Text {
    match id
    case 1 => FrontCoded(c.pkgDict)
    case 2 => FrontCoded(c.nameDict)
    case 3 => PutAll(Deltas(c.pkgIDs, 0))
    case 4 => NameBytes(c)
    case 5 => c.hashes
    case 6 => Ints(Degrees(c.deps))
    case 7 => L.Column(L.Relative, c.deps, 0)
    case 8 => Ints(c.ruleTypeIDs)
    case 9 => FrontCoded(c.ruleTypeDict)
    case 10 => Ints(Degrees(c.tags))
    case 11 => L.Column(L.Chained, c.tags, 0)
    case 12 => FrontCoded(c.tagDict)
    case 13 => Ints(Degrees(c.attrNames))
    case 14 => L.Column(L.Absolute, c.attrNames, 0)
    case 15 => L.Column(L.Absolute, c.attrValues, 0)
    case 16 => FrontCoded(c.attrNameDict)
    case 17 => FrontCoded(c.attrValueDict)
    case 18 => FlagBytes(c)
    case 19 => PutOffsets(c.blockDigests)
    case 20 => PutAll(Deltas(c.blockStarts, 0))
    case _ => MapBytes(c.fileHashes)
  }

  /** Columns 1 to 20 are always there; number 22 holds the file hashes, when
      there are any. */
  function ColumnCount(c: Columns): nat {
    if c.fileHashes == map[] then 20 else 21
  }

  function ColumnId(k: nat): nat {
    if k < 20 then k + 1 else 22
  }

  function CodecOf(id: nat): byte {
    if id == COL_HASH || id == COL_BLOCK_DIGEST then CODEC_RAW else CODEC_ZSTD
  }

  ghost function RawCols(c: Columns): seq<RawCol> {
    seq(ColumnCount(c), k requires 0 <= k < ColumnCount(c) =>
      RawCol(ColumnId(k), CodecOf(ColumnId(k)), ColumnBytes(c, ColumnId(k))))
  }

  function HeaderOf(c: Columns): Header {
    Header(Uint64(c.NodeCount()), Uint64(Sum(Degrees(c.deps))), c.blockSize, 0, c.stride)
  }

  // ---- Reading ----

  datatype Decoded = Decoded(
    pkgDict: seq<Text>, nameDict: seq<Text>, ruleTypeDict: seq<Text>, tagDict: seq<Text>, attrNameDict: seq<Text>,
    attrValueDict: seq<Text>,
    pkgIDs: seq<int32>, nameIDs: seq<int32>, ruleTypeIDs: seq<int32>, deps: seq<seq<int32>>, tags: seq<seq<int32>>,
    attrNames: seq<seq<int32>>, attrValues: seq<seq<int32>>, flags: Flags, hashes: Text,
    fileHashes: Option<map<Text, Text>>)

  function ReadLists(coding: L.Coding, degBytes: Text, bytes: Text): Option<seq<seq<int32>>> {
    var w := L.Lists(coding, Narrow(ReadAll(degBytes)), bytes);
    if w.Some? then Some(w.value.lists) else None
  }

  /** `r.Hashes()`, straight from the file. */
  function Hashes(b: Opened): Text
    requires Readable(b)
  {
    match Find(b.entries, COL_HASH)
    case None => []
    case Some(e) => if e.rawSize == 0 then [] else b.data[e.offset..e.offset + e.compressedSize]
  }

  /** The columns of an opened file, decoded. */
  function DecodeColumns(z: Codec, b: Opened): Option<Decoded>
    requires Readable(b)
  {
    var c1 :- Column(z, b, 1);
    var pkgDict :- ExpandDict(c1);
    var c2 :- Column(z, b, 2);
    var nameDict :- ExpandDict(c2);
    var c9 :- Column(z, b, 9);
    var ruleTypeDict :- ExpandDict(c9);
    var c12 :- Column(z, b, 12);
    var tagDict :- ExpandDict(c12);
    var c16 :- Column(z, b, 16);
    var attrNameDict :- ExpandDict(c16);
    var c17 :- Column(z, b, 17);
    var attrValueDict :- ExpandDict(c17);
    var c20 :- Column(z, b, 20);
    var c3 :- Column(z, b, 3);
    var pkgIDs := Sums(ReadAll(c3), 0);
    var c4 :- Column(z, b, 4);
    var nameIDs := NameSums(ReadAll(c4), pkgIDs, -1, 0);
    var c8 :- Column(z, b, 8);
    var ruleTypeIDs := Narrow(ReadAll(c8));
    var c6 :- Column(z, b, COL_DEG);
    var c7 :- Column(z, b, COL_DEPS);
    var deps :- ReadLists(L.Relative, c6, c7);
    var c10 :- Column(z, b, 10);
    var c11 :- Column(z, b, 11);
    var tags :- ReadLists(L.Chained, c10, c11);
    var c13 :- Column(z, b, 13);
    var c14 :- Column(z, b, 14);
    var c15 :- Column(z, b, 15);
    var attrNames :- ReadLists(L.Absolute, c13, c14);
    var attrValues :- ReadLists(L.Absolute, c13, c15);
    var c18 :- Column(z, b, 18);
    var flags := DecodeFlags(c18, b.header.nodeCount);
    var fileHashes :- ReadSidecar(z, b);
    Some(Decoded(pkgDict, nameDict, ruleTypeDict, tagDict, attrNameDict, attrValueDict, pkgIDs, nameIDs, ruleTypeIDs,
                 deps, tags, attrNames, attrValues, flags, Hashes(b), fileHashes))
  }

  /** A file without the sidecar column has none, which is no error. */
  function ReadSidecar(z: Codec, b: Opened): Option<Option<map<Text, Text>>>
    requires Readable(b)
  {
    if Find(b.entries, 22).None? then Some(None) else
      var bytes :- Column(z, b, 22);
      var m :- MapOf(bytes);
      Some(Some(m))
  }

  // ---- Round trip ----

  predicate DictFits(strs: seq<Text>) {
    TotalBytes(strs) <= Budget(|Entries(strs, 0, [])|)
  }

  /** Every dictionary expands within the reader's budget. */
  predicate DictsFit(c: Columns) {
    DictFits(c.pkgDict) && DictFits(c.nameDict) && DictFits(c.ruleTypeDict) && DictFits(c.tagDict) &&
    DictFits(c.attrNameDict) && DictFits(c.attrValueDict)
  }

  /** What is read of the columns of `c`. */
  function DecodedOf(c: Columns): Decoded {
    Decoded(c.pkgDict, c.nameDict, c.ruleTypeDict, c.tagDict, c.attrNameDict, c.attrValueDict, c.pkgIDs, c.nameIDs,
            c.ruleTypeIDs,
            c.deps, c.tags, c.attrNames, c.attrValues, DecodeFlags(FlagBytes(c), c.NodeCount()), c.hashes,
            if c.fileHashes == map[] then None else Some(c.fileHashes))
  }

  lemma DictColumn(strs: seq<Text>)
    requires ShortTexts(strs)
    ensures ExpandDict(FrontCoded(strs)) == if DictFits(strs) then Some(strs) else None
  {
    DictRoundTrip(strs);
  }

  lemma ListColumn(coding: L.Coding, lists: seq<seq<int32>>, like: seq<seq<int32>>)
    requires ShortLists(lists, |like|) && |like| < TWO_31 && forall k | 0 <= k < |like| :: |lists[k]| == |like[k]|
    ensures ReadLists(coding, Ints(Degrees(like)), L.Column(coding, lists, 0)) == Some(lists)
  {
    PlainRoundTrip(Degrees(like));
    L.ListsRoundTrip(coding, Degrees(like), lists);
  }

  lemma {:induction false} AtLeastOneByte(vs: seq<uint64>)
    ensures |PutAll(vs)| >= |vs|
  {
    if vs != [] {
      AtLeastOneByte(vs[1..]);
    }
  }

  /** Column `id` of the file is what was written as column `id`. */
  lemma ColumnData(c: Columns, id: uint64)
    requires id > 0 && id != 21
    ensures DistinctColumns(RawCols(c))
    ensures DataOf(RawCols(c), id) ==
            if id <= 20 || (id == 22 && c.fileHashes != map[]) then Some(ColumnBytes(c, id)) else None
  {
    hide ColumnBytes;
    var cols := RawCols(c);
    if id <= 20 || (id == 22 && c.fileHashes != map[]) {
      var k := if id <= 20 then id - 1 else 20;
      assert cols[k].id == id;
      DataAt(cols, k);
    } else {
      DataOfSome(cols, id);
    }
  }

  lemma ColumnSizes(c: Columns)
    requires Rectangular(c)
    ensures ColumnBytes(c, COL_HASH) == c.hashes && |ColumnBytes(c, COL_DEG)| >= c.NodeCount()
    ensures |ColumnBytes(c, COL_DEPS)| >= Uint64(Sum(Degrees(c.deps)))
    ensures |ColumnBytes(c, COL_BLOCK_DIGEST)| == 8 * |c.blockDigests|
  {
    hide L.Column, PutAll;
    var degs := Degrees(c.deps);
    AtLeastOneByte(IntColumns.Plain(degs));
    L.ColumnSize(L.Relative, degs, c.deps, 0);
    assert degs[..|degs|] == degs;
    SumGrows(degs, |degs|, |degs|);
    EdgesBacked(Sum(degs), |L.Column(L.Relative, c.deps, 0)|);
  }

  /** The header's counts are backed by what the encoder writes. */
  lemma EncoderBacksCounts(c: Columns)
    requires Rectangular(c)
    ensures Backed(HeaderOf(c), RawCols(c))
  {
    hide DistinctColumns, DataOf, ColumnBytes, RawCols, ShortTexts, ShortLists;
    ColumnData(c, COL_HASH);
    ColumnData(c, COL_DEG);
    ColumnData(c, COL_DEPS);
    ColumnData(c, COL_BLOCK_DIGEST);
    ColumnSizes(c);
  }

  lemma EncoderIsWellPut(c: Columns)
    requires Rectangular(c)
    ensures WellPut(HeaderOf(c), RawCols(c))
  {
    hide ColumnBytes, Backed, DataOf, DistinctColumns, ShortTexts, ShortLists;
    EncoderBacksCounts(c);
    ColumnData(c, 1);
  }

  lemma EdgesBacked(edges: nat, bytes: nat)
    requires edges <= bytes
    ensures Uint64(edges) <= bytes
  {
    assert edges / TWO_64 >= 0;
  }

  /** The file of a graph's columns. */
  ghost function GraphFile(z: Codec, c: Columns): Text {
    FileBytes(z, HeaderOf(c), RawCols(c))
  }

  /** What the reader demands of a file beyond its being well put together. */
  ghost predicate Opens(z: Codec, c: Columns) {
    WithinLimits(z, HeaderOf(c), RawCols(c))
  }

  /** Lengths are Go slice lengths. */
  ghost predicate Addressable(z: Codec, c: Columns) {
    |GraphFile(z, c)| < TWO_63 && forall r | r in RawCols(c) :: |r.data| < TWO_63
  }

  lemma DictsRead(c: Columns)
    requires Rectangular(c)
    ensures ExpandDict(ColumnBytes(c, 1)) == if DictFits(c.pkgDict) then Some(c.pkgDict) else None
    ensures ExpandDict(ColumnBytes(c, 2)) == if DictFits(c.nameDict) then Some(c.nameDict) else None
    ensures ExpandDict(ColumnBytes(c, 9)) == if DictFits(c.ruleTypeDict) then Some(c.ruleTypeDict) else None
    ensures ExpandDict(ColumnBytes(c, 12)) == if DictFits(c.tagDict) then Some(c.tagDict) else None
    ensures ExpandDict(ColumnBytes(c, 16)) == if DictFits(c.attrNameDict) then Some(c.attrNameDict) else None
    ensures ExpandDict(ColumnBytes(c, 17)) == if DictFits(c.attrValueDict) then Some(c.attrValueDict) else None
  {
    hide ExpandDict, DictFits, FrontCoded, ShortTexts, ShortLists;
    DictColumn(c.pkgDict);
    DictColumn(c.nameDict);
    DictColumn(c.ruleTypeDict);
    DictColumn(c.tagDict);
    DictColumn(c.attrNameDict);
    DictColumn(c.attrValueDict);
  }

  lemma IntsRead(c: Columns)
    requires Rectangular(c)
    ensures Sums(ReadAll(ColumnBytes(c, 3)), 0) == c.pkgIDs
    ensures NameSums(ReadAll(ColumnBytes(c, 4)), c.pkgIDs, -1, 0) == c.nameIDs
    ensures Narrow(ReadAll(ColumnBytes(c, 8))) == c.ruleTypeIDs
  {
    hide ReadAll, PutAll, Sums, NameSums, Narrow, Deltas, NameDeltas, ShortTexts, ShortLists;
    DeltaRoundTrip(c.pkgIDs);
    NameRoundTrip(c.pkgIDs, c.nameIDs);
    PlainRoundTrip(c.ruleTypeIDs);
  }

  lemma ListsRead(c: Columns)
    requires Rectangular(c)
    ensures ReadLists(L.Relative, ColumnBytes(c, 6), ColumnBytes(c, 7)) == Some(c.deps)
    ensures ReadLists(L.Chained, ColumnBytes(c, 10), ColumnBytes(c, 11)) == Some(c.tags)
    ensures ReadLists(L.Absolute, ColumnBytes(c, 13), ColumnBytes(c, 14)) == Some(c.attrNames)
    ensures ReadLists(L.Absolute, ColumnBytes(c, 13), ColumnBytes(c, 15)) == Some(c.attrValues)
  {
    hide ReadLists, Ints, Degrees, L.Column, ShortTexts;
    ListColumn(L.Relative, c.deps, c.deps);
    ListColumn(L.Chained, c.tags, c.tags);
    ListColumn(L.Absolute, c.attrNames, c.attrNames);
    ListColumn(L.Absolute, c.attrValues, c.attrNames);
  }

  /** Columns that hold what was written decode to what was encoded. */
  lemma ColumnsDecode(z: Codec, b: Opened, c: Columns)
    requires Rectangular(c) && Readable(b) && b.header.nodeCount == c.NodeCount()
    requires forall id: uint64 | 0 < id <= 20 :: Column(z, b, id) == Some(ColumnBytes(c, id))
    requires Hashes(b) == c.hashes
    requires ReadSidecar(z, b) == Some(if c.fileHashes == map[] then None else Some(c.fileHashes))
    ensures DecodeColumns(z, b) == if DictsFit(c) then Some(DecodedOf(c)) else None
  {
    DictsRead(c);
    IntsRead(c);
    ListsRead(c);
    FlagsRead(c);
    hide Column, ColumnBytes, ExpandDict, Sums, NameSums, Narrow, ReadAll, ReadLists, DecodeFlags, FlagBytes, Hashes,
      ReadSidecar, Rectangular, Readable, DictFits;
  }

  lemma FlagsRead(c: Columns)
    ensures DecodeFlags(ColumnBytes(c, 18), c.NodeCount()) == DecodeFlags(FlagBytes(c), c.NodeCount())
  {
  }

  lemma SidecarReads(z: Codec, c: Columns, b: Opened)
    requires Rectangular(c) && Readable(b) && b.entries == EntriesOf(z, RawCols(c), HEADER_SIZE)
    requires c.fileHashes != map[] ==> Column(z, b, 22) == Some(ColumnBytes(c, 22))
    ensures ReadSidecar(z, b) == Some(if c.fileHashes == map[] then None else Some(c.fileHashes))
  {
    hide Column, EntriesOf, RawCols, DataOf, MapBytes, MapOf, ShortTexts, ShortLists, Readable;
    FindWritten(z, RawCols(c), HEADER_SIZE, 22);
    ColumnData(c, 22);
    MapRoundTrip(c.fileHashes);
  }

  lemma HashesRead(z: Codec, c: Columns, b: Opened)
    requires Readable(b) && Find(b.entries, COL_HASH).Some? && Column(z, b, COL_HASH) == Some(c.hashes)
    requires var e := Find(b.entries, COL_HASH).value; e.codec == CODEC_RAW && e.rawSize == e.compressedSize
    ensures Hashes(b) == c.hashes
  {
  }

  lemma HashEntry(z: Codec, c: Columns)
    requires |c.hashes| < TWO_63
    ensures var e := Find(EntriesOf(z, RawCols(c), HEADER_SIZE), COL_HASH);
      e.Some? && e.value.codec == CODEC_RAW && e.value.rawSize == e.value.compressedSize
  {
    hide ColumnBytes, EntriesOf, AllStored;
    var cols := RawCols(c);
    ColumnData(c, COL_HASH);
    DistinctEntries(z, cols);
    EntryAt(z, cols, HEADER_SIZE, 4);
    FindAt(EntriesOf(z, cols, HEADER_SIZE), 4);
    HashesAreColumn(c);
  }

  lemma HashesAreColumn(c: Columns)
    ensures ColumnBytes(c, COL_HASH) == c.hashes
  {
  }

  /** A graph's file opens exactly when it is within the reader's limits; then it
      decodes exactly when its dictionaries are within theirs, and to the very
      columns that were encoded. */
  lemma GraphFileRoundTrip(z: Codec, c: Columns)
    requires Lossless(z) && Rectangular(c) && Addressable(z, c)
    ensures Open(z, GraphFile(z, c)).Some? <==> Opens(z, c)
    ensures Opens(z, c) ==>
      DecodeColumns(z, Open(z, GraphFile(z, c)).value) == if DictsFit(c) then Some(DecodedOf(c)) else None
    ensures Opens(z, c) ==> Open(z, GraphFile(z, c)).value.header == HeaderOf(c)
  {
    hide ColumnBytes, RawCols, Lossless, ShortTexts, ShortLists, FileBytes, Open, WellPut, WithinLimits, DecodeColumns,
      DictsFit, DecodedOf, Column, DataOf;
    var h, cols := HeaderOf(c), RawCols(c);
    EncoderIsWellPut(c);
    WrittenFileOpens(z, h, cols);
    if Opens(z, c) {
      var b := Open(z, GraphFile(z, c)).value;
      forall id: uint64 | 0 < id <= 20 || (id == 22 && c.fileHashes != map[])
        ensures Column(z, b, id) == Some(ColumnBytes(c, id))
      {
        ColumnsRoundTrip(z, h, cols, id);
        ColumnData(c, id);
      }
      SidecarReads(z, c, b);
      ColumnSizes(c);
      ColumnData(c, COL_HASH);
      DataOfSome(cols, COL_HASH);
      HashEntry(z, c);
      HashesRead(z, c, b);
      ColumnsDecode(z, b, c);
    }
  }
}
