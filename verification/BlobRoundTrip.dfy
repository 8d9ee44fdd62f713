/** A written file opens exactly when it is within the reader's limits, and then
    every column is read back. */
module BlobRoundTrip {
  import opened Wrappers
  import opened ByteStrings
  import opened Varint
  import opened Slices
  import opened Container
  import opened Blob

  predicate DistinctColumns(cols: seq<RawCol>) {
    forall i, j | 0 <= i < j < |cols| :: cols[i].id != cols[j].id
  }

  function DataOf(cols: seq<RawCol>, id: uint64): Option<Text> {
    if cols == [] then None else if cols[0].id == id then Some(cols[0].data) else DataOf(cols[1..], id)
  }

  function TotalData(cols: seq<RawCol>): nat {
    if cols == [] then 0 else TotalData(cols[..|cols| - 1]) + |cols[|cols| - 1].data|
  }

  /** The limits of the reader, in terms of what was written. */
  predicate WithinLimits(z: Codec, h: Header, cols: seq<RawCol>) {
    && (forall c | c in cols :: |c.data| <= MAX_COLUMN_RAW_SIZE)
    && TotalData(cols) <= RawBudget(|FileBytes(z, h, cols)|)
  }

  predicate LongEnough(data: Option<Text>, n: nat) {
    data.Some? && |data.value| >= n
  }

  /** The header's counts are backed by the columns written. */
  predicate Backed(h: Header, cols: seq<RawCol>) {
    var n := h.nodeCount;
    var hash, blocks := DataOf(cols, COL_HASH), DataOf(cols, COL_BLOCK_DIGEST);
    && (n > 0 ==> LongEnough(DataOf(cols, COL_DEG), n) && hash.Some? && |hash.value| == n * h.hashBytes)
    && (h.edgeCount > 0 ==> LongEnough(DataOf(cols, COL_DEPS), h.edgeCount))
    && (blocks.Some? ==> |blocks.value| % 8 == 0 && |blocks.value| / 8 <= n)
  }

  /** What `Encode` promises of the header and the columns it writes. */
  predicate WellPut(h: Header, cols: seq<RawCol>) {
    && HeaderValid(h) && StrideKnown(h.hashBytes)
    && |cols| <= MAX_DIRECTORY_ENTRIES && DistinctColumns(cols)
    && (forall c | c in cols :: c.codec == CODEC_RAW || c.codec == CODEC_ZSTD)
    && Backed(h, cols)
  }

  lemma {:induction false} EntryAt(z: Codec, cols: seq<RawCol>, offset: nat, k: nat)
    requires k < |cols|
    ensures var at := |AllStored(z, cols[..k])|;
      && EntriesOf(z, cols, offset)[k] == EntryOf(z, cols[k], offset + at)
      && at + |Stored(z, cols[k])| <= |AllStored(z, cols)|
      && AllStored(z, cols)[at..at + |Stored(z, cols[k])|] == Stored(z, cols[k])
    decreases k
  {
    hide Stored, EntryOf;
    if k == 0 {
      assert cols[..0] == [];
    } else {
      var first, rest := Stored(z, cols[0]), AllStored(z, cols[1..]);
      EntryAt(z, cols[1..], offset + |first|, k - 1);
      assert cols[..k][1..] == cols[1..][..k - 1] && cols[..k][0] == cols[0];
      var at := |AllStored(z, cols[1..][..k - 1])|;
      SliceBehind(first, rest, at, at + |Stored(z, cols[k])|);
    }
  }

  lemma {:induction false} FindWritten(z: Codec, cols: seq<RawCol>, offset: nat, id: uint64)
    ensures var e, d := Find(EntriesOf(z, cols, offset), id), DataOf(cols, id);
      (e.Some? <==> d.Some?) && (e.Some? ==> e.value.rawSize == Uint64(|d.value|))
  {
    hide Stored;
    if cols != [] {
      FindWritten(z, cols[1..], offset + |Stored(z, cols[0])|, id);
    }
  }

  lemma {:induction false} DataAt(cols: seq<RawCol>, k: nat)
    requires k < |cols| && DistinctColumns(cols)
    ensures DataOf(cols, cols[k].id) == Some(cols[k].data)
  {
    if k > 0 {
      assert cols[0].id != cols[k].id;
      forall i, j | 0 <= i < j < |cols| - 1 ensures cols[1..][i].id != cols[1..][j].id {
        assert cols[i + 1].id != cols[j + 1].id;
      }
      DataAt(cols[1..], k - 1);
    }
  }

  lemma {:induction false} DataOfSome(cols: seq<RawCol>, id: uint64)
    ensures DataOf(cols, id).Some? ==> exists c :: c in cols && c.id == id && DataOf(cols, id).value == c.data
  {
    if cols != [] && cols[0].id != id {
      DataOfSome(cols[1..], id);
    }
  }

  lemma {:induction false} TotalsAgree(z: Codec, cols: seq<RawCol>, offset: nat)
    requires forall c | c in cols :: |c.data| < TWO_64
    ensures TotalRaw(EntriesOf(z, cols, offset)) == TotalData(cols)
    decreases |cols|
  {
    hide Stored;
    if cols != [] {
      var n := |cols| - 1;
      var entries := EntriesOf(z, cols, offset);
      assert cols[n] in cols;
      EntryAt(z, cols, offset, n);
      EntriesPrefix(z, cols, offset, n);
      TotalsAgree(z, cols[..n], offset);
    }
  }

  lemma {:induction false} EntriesPrefix(z: Codec, cols: seq<RawCol>, offset: nat, n: nat)
    requires n <= |cols|
    ensures EntriesOf(z, cols, offset)[..n] == EntriesOf(z, cols[..n], offset)
    decreases n
  {
    hide Stored, EntryOf;
    if n > 0 {
      EntriesPrefix(z, cols[1..], offset + |Stored(z, cols[0])|, n - 1);
      assert cols[..n][1..] == cols[1..][..n - 1] && cols[..n][0] == cols[0];
    }
  }

  /** A column's entry is valid exactly when the column is not too long. */
  lemma WrittenEntryValid(z: Codec, cols: seq<RawCol>, k: nat)
    requires Lossless(z) && k < |cols| && (cols[k].codec == CODEC_RAW || cols[k].codec == CODEC_ZSTD)
    requires DirOffset(z, cols) < TWO_64 && |cols[k].data| < TWO_64
    ensures EntryValid(EntriesOf(z, cols, HEADER_SIZE)[k], DirOffset(z, cols)) <==>
            |cols[k].data| <= MAX_COLUMN_RAW_SIZE
  {
    hide AllStored, EntriesOf;
    EntryAt(z, cols, HEADER_SIZE, k);
  }

  lemma WrittenColumnsValid(z: Codec, h: Header, cols: seq<RawCol>)
    requires Lossless(z) && WellPut(h, cols) && |FileBytes(z, h, cols)| < TWO_63
    requires forall c | c in cols :: |c.data| < TWO_63
    ensures ColumnsValid(h, EntriesOf(z, cols, HEADER_SIZE), |FileBytes(z, h, cols)|, Uint64(DirOffset(z, cols))) <==>
            WithinLimits(z, h, cols)
  {
    hide Lossless, EntryValid, EntriesOf, FileBytes, AllStored, HeaderValid, DistinctColumns, TotalRaw, TotalData, Find,
      DataOf, Backed, CountsBacked,
      RawBudget, DirOffset;
    FileIsLonger(z, h, cols);
    EntriesValid(z, cols);
    TotalsAgree(z, cols, HEADER_SIZE);
    CountsAreBacked(z, h, cols);
  }

  lemma EntriesValid(z: Codec, cols: seq<RawCol>)
    requires Lossless(z) && DirOffset(z, cols) < TWO_63
    requires forall c | c in cols :: |c.data| < TWO_63 && (c.codec == CODEC_RAW || c.codec == CODEC_ZSTD)
    ensures (forall e | e in EntriesOf(z, cols, HEADER_SIZE) :: EntryValid(e, Uint64(DirOffset(z, cols)))) <==>
            (forall c | c in cols :: |c.data| <= MAX_COLUMN_RAW_SIZE)
  {
    hide Lossless, EntryValid, EntriesOf, DirOffset;
    forall k | 0 <= k < |cols|
      ensures EntryValid(EntriesOf(z, cols, HEADER_SIZE)[k], Uint64(DirOffset(z, cols))) <==>
              |cols[k].data| <= MAX_COLUMN_RAW_SIZE
    {
      assert cols[k] in cols;
      WrittenEntryValid(z, cols, k);
    }
    AllOf(z, cols);
  }

  lemma AllOf(z: Codec, cols: seq<RawCol>)
    requires forall k | 0 <= k < |cols| ::
        EntryValid(EntriesOf(z, cols, HEADER_SIZE)[k], Uint64(DirOffset(z, cols))) <==>
        |cols[k].data| <= MAX_COLUMN_RAW_SIZE
    ensures (forall e | e in EntriesOf(z, cols, HEADER_SIZE) :: EntryValid(e, Uint64(DirOffset(z, cols)))) <==>
            (forall c | c in cols :: |c.data| <= MAX_COLUMN_RAW_SIZE)
  {
    hide EntryValid, EntriesOf, AllStored;
    var entries := EntriesOf(z, cols, HEADER_SIZE);
    if forall e | e in entries :: EntryValid(e, Uint64(DirOffset(z, cols))) {
      forall c | c in cols ensures |c.data| <= MAX_COLUMN_RAW_SIZE {
        var k :| 0 <= k < |cols| && cols[k] == c;
        assert entries[k] in entries;
      }
    }
    if forall c | c in cols :: |c.data| <= MAX_COLUMN_RAW_SIZE {
      forall e | e in entries ensures EntryValid(e, Uint64(DirOffset(z, cols))) {
        var k :| 0 <= k < |entries| && entries[k] == e;
        assert cols[k] in cols;
      }
    }
  }

  lemma FileIsLonger(z: Codec, h: Header, cols: seq<RawCol>)
    ensures DirOffset(z, cols) + |Directory(z, cols)| + FOOTER_SIZE == |FileBytes(z, h, cols)|
  {
    hide AllStored, Directory, HeaderBytes, FooterBytes;
  }

  lemma CountsAreBacked(z: Codec, h: Header, cols: seq<RawCol>)
    requires WellPut(h, cols) && forall c | c in cols :: |c.data| < TWO_63
    ensures CountsBacked(h, EntriesOf(z, cols, HEADER_SIZE))
  {
    hide EntriesOf, Find, DataOf, HeaderValid, DistinctColumns;
    forall id: uint64 | id == COL_HASH || id == COL_DEG || id == COL_DEPS || id == COL_BLOCK_DIGEST
      ensures var e, d := Find(EntriesOf(z, cols, HEADER_SIZE), id), DataOf(cols, id);
        (e.Some? <==> d.Some?) && (e.Some? ==> e.value.rawSize == |d.value|)
    {
      FindWritten(z, cols, HEADER_SIZE, id);
      DataOfSome(cols, id);
    }
  }

  /** The parts of a written file, each where the reader looks for it. */
  lemma PartsOf(z: Codec, h: Header, cols: seq<RawCol>)
    ensures var data, dirOffset := FileBytes(z, h, cols), DirOffset(z, cols);
      && |data| >= HEADER_SIZE + FOOTER_SIZE && dirOffset <= |data| - FOOTER_SIZE
      && data[..HEADER_SIZE] == HeaderBytes(z.crc, h)
      && data[|data| - FOOTER_SIZE..] == FooterBytes(Footer(Uint64(dirOffset), z.crc(Directory(z, cols))))
      && DirData(data, dirOffset) == Directory(z, cols)
      && data[HEADER_SIZE..dirOffset] == AllStored(z, cols)
  {
    hide AllStored, Directory, HeaderBytes, FooterBytes;
    var body, dir := AllStored(z, cols), Directory(z, cols);
    var foot := FooterBytes(Footer(Uint64(DirOffset(z, cols)), z.crc(dir)));
    var head := HeaderBytes(z.crc, h);
    var data := head + body + dir + foot;
    assert data[|data| - FOOTER_SIZE..] == foot;
    assert data[DirOffset(z, cols)..|data| - FOOTER_SIZE] == dir;
    assert data[HEADER_SIZE..DirOffset(z, cols)] == body;
  }

  lemma DistinctEntries(z: Codec, cols: seq<RawCol>)
    requires DistinctColumns(cols)
    ensures DistinctIds(EntriesOf(z, cols, HEADER_SIZE))
  {
    hide EntriesOf, AllStored, Stored;
    var entries := EntriesOf(z, cols, HEADER_SIZE);
    forall i, j | 0 <= i < j < |entries| ensures entries[i].id != entries[j].id {
      EntryAt(z, cols, HEADER_SIZE, i);
      EntryAt(z, cols, HEADER_SIZE, j);
    }
  }

  /** The file opens exactly when it is within the limits. */
  lemma WrittenFileOpens(z: Codec, h: Header, cols: seq<RawCol>)
    requires Lossless(z) && WellPut(h, cols) && |FileBytes(z, h, cols)| < TWO_63
    requires forall c | c in cols :: |c.data| < TWO_63
    ensures Open(z, FileBytes(z, h, cols)) ==
            if WithinLimits(z, h, cols) then Some(Opened(FileBytes(z, h, cols), h, EntriesOf(z, cols, HEADER_SIZE)))
            else None
  {
    hide FileBytes, AllStored, HeaderBytes, FooterBytes, ParseHeader, ParseFooter, ParseDirectory, DirectoryBytes,
      EntriesOf,
      ColumnsValid, DistinctIds, HeaderValid, DistinctColumns, Backed, WithinLimits, DirData, EntryValid;
    PartsOf(z, h, cols);
    FileIsLonger(z, h, cols);
    HeaderRoundTrip(z.crc, h);
    FooterRoundTrip(Footer(Uint64(DirOffset(z, cols)), z.crc(Directory(z, cols))));
    DirectoryRoundTrip(EntriesOf(z, cols, HEADER_SIZE));
    DistinctEntries(z, cols);
    WrittenColumnsValid(z, h, cols);
  }

  /** Every column comes back, and a column that was not written is empty. */
  lemma ColumnsRoundTrip(z: Codec, h: Header, cols: seq<RawCol>, id: uint64)
    requires Lossless(z) && WellPut(h, cols) && |FileBytes(z, h, cols)| < TWO_63
    requires (forall c | c in cols :: |c.data| < TWO_63) && WithinLimits(z, h, cols)
    ensures Open(z, FileBytes(z, h, cols)).Some?
    ensures var d := DataOf(cols, id);
      Column(z, Open(z, FileBytes(z, h, cols)).value, id) == Some(if d.Some? then d.value else [])
  {
    hide Lossless, FileBytes, AllStored, EntriesOf, WithinLimits, Find, DataOf, DistinctIds, Backed, HeaderValid, Open;
    WrittenFileOpens(z, h, cols);
    var entries := EntriesOf(z, cols, HEADER_SIZE);
    FindWritten(z, cols, HEADER_SIZE, id);
    if DataOf(cols, id).Some? {
      DataOfSome(cols, id);
      var c :| c in cols && c.id == id && DataOf(cols, id).value == c.data;
      var k :| 0 <= k < |cols| && cols[k] == c;
      DistinctEntries(z, cols);
      EntryAt(z, cols, HEADER_SIZE, k);
      FindAt(entries, k);
      ColumnIs(z, h, cols, k);
    }
  }

  lemma ColumnIs(z: Codec, h: Header, cols: seq<RawCol>, k: nat)
    requires Lossless(z) && k < |cols| && |cols[k].data| < TWO_63 && |FileBytes(z, h, cols)| < TWO_63
    requires cols[k].codec == CODEC_RAW || cols[k].codec == CODEC_ZSTD
    requires var b := Opened(FileBytes(z, h, cols), h, EntriesOf(z, cols, HEADER_SIZE));
      Readable(b) && Find(b.entries, cols[k].id) == Some(b.entries[k])
    ensures Column(z, Opened(FileBytes(z, h, cols), h, EntriesOf(z, cols, HEADER_SIZE)), cols[k].id) ==
            Some(cols[k].data)
  {
    hide FileBytes, EntriesOf, Find;
    StoredAt(z, h, cols, k);
  }

  lemma StoredAt(z: Codec, h: Header, cols: seq<RawCol>, k: nat)
    requires k < |cols| && |FileBytes(z, h, cols)| < TWO_63
    ensures var e := EntriesOf(z, cols, HEADER_SIZE)[k];
      && e.offset + e.compressedSize <= |FileBytes(z, h, cols)|
      && FileBytes(z, h, cols)[e.offset..e.offset + e.compressedSize] == Stored(z, cols[k])
      && e.codec == cols[k].codec && e.rawSize == Uint64(|cols[k].data|)
  {
    hide FileBytes, AllStored, EntriesOf, Stored;
    EntryAt(z, cols, HEADER_SIZE, k);
    PartsOf(z, h, cols);
    FileIsLonger(z, h, cols);
    var at := |AllStored(z, cols[..k])|;
    SliceOfSlice(FileBytes(z, h, cols), HEADER_SIZE, DirOffset(z, cols), at, at + |Stored(z, cols[k])|);
  }
}
