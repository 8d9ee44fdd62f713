/** Whole files: written column by column, opened by the directory, and read one
    column at a time. */
module Blob {
  import opened Wrappers
  import opened ByteStrings
  import opened Varint
  import opened Words
  import opened Container

  /** The checksum and the compressor, as the file format uses them. */
  datatype Codec = Codec(crc: Checksum, compress: Text -> Text, decompress: (Text, nat) -> Option<Text>)

  /** Decompression undoes compression, given the length, and a compressed
      column is never empty. */
  ghost predicate Lossless(z: Codec) {
    && (forall d :: d != [] ==> z.compress(d) != [] && z.decompress(z.compress(d), |d|) == Some(d))
    && z.decompress([], 0) == Some([])
  }

  datatype RawCol = RawCol(id: uint64, codec: byte, data: Text)

  // ---- Writing ----

  function Stored(z: Codec, c: RawCol): Text {
    if c.codec == CODEC_ZSTD && c.data != [] then z.compress(c.data) else c.data
  }

  function AllStored(z: Codec, cols: seq<RawCol>): Text {
    if cols == [] then [] else Stored(z, cols[0]) + AllStored(z, cols[1..])
  }

  function EntryOf(z: Codec, c: RawCol, offset: nat): ColEntry {
    ColEntry(c.id, c.codec, Uint64(offset), Uint64(|Stored(z, c)|), Uint64(|c.data|))
  }

  function EntriesOf(z: Codec, cols: seq<RawCol>, offset: nat): (entries: seq<ColEntry>)
    ensures |entries| == |cols|
  {
    if cols == [] then [] else [EntryOf(z, cols[0], offset)] + EntriesOf(z, cols[1..], offset + |Stored(z, cols[0])|)
  }

  function DirOffset(z: Codec, cols: seq<RawCol>): nat {
    HEADER_SIZE + |AllStored(z, cols)|
  }

  function Directory(z: Codec, cols: seq<RawCol>): Text {
    DirectoryBytes(EntriesOf(z, cols, HEADER_SIZE))
  }

  function FileBytes(z: Codec, h: Header, cols: seq<RawCol>): Text {
    var dir := Directory(z, cols);
    HeaderBytes(z.crc, h) + AllStored(z, cols) + dir + FooterBytes(Footer(Uint64(DirOffset(z, cols)), z.crc(dir)))
  }

  /** The last part of `encoder.write`. */
  method WriteFile(z: Codec, h: Header, cols: seq<RawCol>) returns (data: Text)
    ensures data == FileBytes(z, h, cols)
  {
    hide Stored, EntryOf;
    var offset := HEADER_SIZE;
    var entries: seq<ColEntry> := [];
    var body: Text := [];
    for i := 0 to |cols|
      invariant body + AllStored(z, cols[i..]) == AllStored(z, cols) && offset == HEADER_SIZE + |body|
      invariant entries + EntriesOf(z, cols[i..], offset) == EntriesOf(z, cols, HEADER_SIZE)
    {
      var comp := Stored(z, cols[i]);
      entries := entries + [EntryOf(z, cols[i], offset)];
      offset := offset + |comp|;
      body := body + comp;
    }
    assert body + [] == body && entries + [] == entries;
    var header := EncodeHeader(z.crc, h);
    var dir := DirectoryBytes(entries);
    data := header[..] + body + dir + FooterBytes(Footer(Uint64(offset), z.crc(dir)));
  }

  // ---- Opening ----

  function Find(entries: seq<ColEntry>, id: uint64): (e: Option<ColEntry>)
    ensures e.Some? ==> e.value in entries && e.value.id == id
  {
    if entries == [] then None else if entries[0].id == id then Some(entries[0]) else Find(entries[1..], id)
  }

  predicate DistinctIds(entries: seq<ColEntry>) {
    forall i, j | 0 <= i < j < |entries| :: entries[i].id != entries[j].id
  }

  /** The column lies between the header and the directory, and its claimed
      sizes fit its codec and the limit. */
  predicate EntryValid(e: ColEntry, dirOffset: uint64) {
    var end := Uint64(e.offset + e.compressedSize);
    && e.offset <= end <= dirOffset && HEADER_SIZE <= e.offset
    && (e.codec == CODEC_RAW || e.codec == CODEC_ZSTD)
    && (e.codec == CODEC_RAW ==> e.rawSize == e.compressedSize)
    && (e.codec == CODEC_ZSTD && e.rawSize > 0 ==> e.compressedSize > 0)
    && e.rawSize <= MAX_COLUMN_RAW_SIZE
  }

  function TotalRaw(entries: seq<ColEntry>): nat {
    if entries == [] then 0 else TotalRaw(entries[..|entries| - 1]) + entries[|entries| - 1].rawSize
  }

  function RawBudget(fileSize: nat): nat {
    if fileSize * MAX_TOTAL_RAW_FACTOR < MAX_TOTAL_RAW_FLOOR then MAX_TOTAL_RAW_FLOOR
    else fileSize * MAX_TOTAL_RAW_FACTOR
  }

  predicate IsPowerOfTwo(n: nat) {
    n == 1 || (n > 0 && n % 2 == 0 && IsPowerOfTwo(n / 2))
  }

  predicate HeaderValid(h: Header) {
    (h.flags == 0 || h.flags == REV_CSR) && (h.blockSize == 0 || IsPowerOfTwo(h.blockSize))
  }

  predicate AtLeast(e: Option<ColEntry>, n: nat) {
    e.Some? && e.value.rawSize >= n
  }

  /** The header's counts are backed by column bytes. */
  predicate CountsBacked(h: Header, entries: seq<ColEntry>) {
    var n := h.nodeCount;
    var hash, blocks := Find(entries, COL_HASH), Find(entries, COL_BLOCK_DIGEST);
    && (n > 0 ==> AtLeast(Find(entries, COL_DEG), n) && hash.Some? && hash.value.rawSize == Uint64(n * h.hashBytes))
    && (h.edgeCount > 0 ==> AtLeast(Find(entries, COL_DEPS), h.edgeCount))
    && (blocks.Some? ==> blocks.value.rawSize % 8 == 0 && blocks.value.rawSize / 8 <= n)
  }

  predicate ColumnsValid(h: Header, entries: seq<ColEntry>, fileSize: nat, dirOffset: uint64) {
    && HeaderValid(h)
    && (forall e | e in entries :: EntryValid(e, dirOffset))
    && TotalRaw(entries) <= RawBudget(fileSize)
    && CountsBacked(h, entries)
  }

  /** `validateColumns`. */
  method ValidateColumns(h: Header, entries: seq<ColEntry>, cols: map<uint64, ColEntry>, fileSize: nat,
                         dirOffset: uint64)
    returns (ok: bool)
    requires forall id: uint64 :: Find(entries, id) == if id in cols then Some(cols[id]) else None
    ensures ok <==> ColumnsValid(h, entries, fileSize, dirOffset)
  {
    hide Find, Uint64;
    if !HeaderValid(h) {
      return false;
    }
    var totalRaw := 0;
    for i := 0 to |entries|
      invariant forall e | e in entries[..i] :: EntryValid(e, dirOffset)
      invariant totalRaw == TotalRaw(entries[..i])
    {
      var e := entries[i];
      assert entries[..i + 1] == entries[..i] + [e] && entries[..i + 1][..i] == entries[..i] && e in entries;
      var end := Uint64(e.offset + e.compressedSize);
      if end < e.offset || e.offset < HEADER_SIZE || end > dirOffset {
        return false;
      }
      if e.codec == CODEC_RAW {
        if e.rawSize != e.compressedSize {
          return false;
        }
      } else if e.codec == CODEC_ZSTD {
        if e.rawSize > 0 && e.compressedSize == 0 {
          return false;
        }
      } else {
        return false;
      }
      if e.rawSize > MAX_COLUMN_RAW_SIZE {
        return false;
      }
      totalRaw := totalRaw + e.rawSize;
    }
    assert entries[..|entries|] == entries;
    if totalRaw > RawBudget(fileSize) {
      return false;
    }
    var n := h.nodeCount;
    if n > 0 {
      if COL_DEG !in cols || cols[COL_DEG].rawSize < n {
        return false;
      }
      if COL_HASH !in cols || cols[COL_HASH].rawSize != Uint64(n * h.hashBytes) {
        return false;
      }
    }
    if h.edgeCount > 0 {
      if COL_DEPS !in cols || cols[COL_DEPS].rawSize < h.edgeCount {
        return false;
      }
    }
    if COL_BLOCK_DIGEST in cols {
      var raw := cols[COL_BLOCK_DIGEST].rawSize;
      if raw % 8 != 0 || raw / 8 > n {
        return false;
      }
    }
    ok := true;
  }

  datatype Opened = Opened(data: Text, header: Header, entries: seq<ColEntry>)

  function DirData(data: Text, dirOffset: nat): Text
    requires dirOffset <= |data| - FOOTER_SIZE
  {
    data[dirOffset..|data| - FOOTER_SIZE]
  }

  function Open(z: Codec, data: Text): (r: Option<Opened>)
    ensures r.Some? ==> Readable(r.value)
  {
    if |data| < HEADER_SIZE + FOOTER_SIZE then None
    else
      match ParseHeader(z.crc, data[..HEADER_SIZE])
      case None => None
      case Some(h) =>
        match ParseFooter(data[|data| - FOOTER_SIZE..])
        case None => None
        case Some(f) =>
          if |data| - FOOTER_SIZE < f.dirOffset || z.crc(DirData(data, f.dirOffset)) != f.dirCRC then None
          else
            match ParseDirectory(DirData(data, f.dirOffset))
            case None => None
            case Some(entries) =>
              if DistinctIds(entries) && ColumnsValid(h, entries, |data|, f.dirOffset) then
                EntriesInside(data, entries, f.dirOffset);
                Some(Opened(data, h, entries))
              else None
  }

  /** Every column an opened file lists can be sliced out of it. */
  predicate Readable(b: Opened) {
    forall e | e in b.entries :: e.offset + e.compressedSize <= |b.data|
  }

  lemma EntriesInside(data: Text, entries: seq<ColEntry>, dirOffset: uint64)
    requires dirOffset <= |data| && forall e | e in entries :: EntryValid(e, dirOffset)
    ensures forall e | e in entries :: e.offset + e.compressedSize <= |data|
  {
    forall e | e in entries ensures e.offset + e.compressedSize <= |data| {
      var end := e.offset + e.compressedSize;
      assert EntryValid(e, dirOffset);
      assert Uint64(end) == if end < TWO_64 then end else end - TWO_64;
    }
  }

  /** One column's bytes; a column the file does not list is empty. */
  function Column(z: Codec, b: Opened, id: uint64): Option<Text>
    requires Readable(b)
  {
    match Find(b.entries, id)
    case None => Some([])
    case Some(e) =>
      var raw := b.data[e.offset..e.offset + e.compressedSize];
      if e.codec != CODEC_ZSTD then Some(raw)
      else
        match z.decompress(raw, e.rawSize)
        case None => None
        case Some(out) => if |out| != e.rawSize then None else Some(out)
  }

  // ---- The reader ----

  lemma {:induction false} FindAt(entries: seq<ColEntry>, k: nat)
    requires k < |entries| && DistinctIds(entries)
    ensures Find(entries, entries[k].id) == Some(entries[k])
  {
    if k > 0 {
      assert entries[0].id != entries[k].id;
      forall i, j | 0 <= i < j < |entries| - 1 ensures entries[1..][i].id != entries[1..][j].id {
        assert entries[i + 1].id != entries[j + 1].id;
      }
      FindAt(entries[1..], k - 1);
    }
  }

  lemma {:induction false} FindNothing(entries: seq<ColEntry>, id: uint64)
    ensures Find(entries, id).None? <==> forall e | e in entries :: e.id != id
  {
    if entries != [] {
      FindNothing(entries[1..], id);
      assert entries == [entries[0]] + entries[1..];
    }
  }

  /** A column-at-a-time view of a file that keeps what it decompressed. */
  class Reader {
    const z: Codec
    const blob: Opened
    var cols: map<uint64, ColEntry>
    var decompressed: map<uint64, Text>

    /** Every kept column is the column of the file. */
    ghost predicate Valid()
      reads this
    {
      && Readable(blob)
      && (forall id: uint64 :: Find(blob.entries, id) == if id in cols then Some(cols[id]) else None)
      && forall id | id in decompressed :: Column(z, blob, id) == Some(decompressed[id])
    }

    constructor (z: Codec, blob: Opened, cols: map<uint64, ColEntry>)
      requires Readable(blob)
      requires forall id: uint64 :: Find(blob.entries, id) == if id in cols then Some(cols[id]) else None
      ensures Valid() && this.z == z && this.blob == blob && decompressed == map[]
    {
      this.z := z;
      this.blob := blob;
      this.cols := cols;
      decompressed := map[];
    }

    /** `getColumn`: the same bytes whether or not they were kept. */
    method GetColumn(id: uint64) returns (r: Option<Text>)
      requires Valid()
      modifies `decompressed
      ensures Valid() && r == Column(z, blob, id)
      ensures decompressed == if r.Some? then old(decompressed)[id := r.value] else old(decompressed)
    {
      if id in decompressed {
        return Some(decompressed[id]);
      }
      if id !in cols {
        decompressed := decompressed[id := []];
        return Some([]);
      }
      var e := cols[id];
      assert Find(blob.entries, id) == Some(e);
      var out := blob.data[e.offset..e.offset + e.compressedSize];
      if e.codec == CODEC_ZSTD {
        var plain := z.decompress(out, e.rawSize);
        if plain.None? || |plain.value| != e.rawSize {
          return None;
        }
        out := plain.value;
      }
      decompressed := decompressed[id := out];
      r := Some(out);
    }
  }

  /** `NewReader`: opens exactly the files that `Open` accepts. */
  method NewReader(z: Codec, data: Text) returns (r: Reader?)
    ensures r != null <==> Open(z, data).Some?
    ensures r != null ==> fresh(r) && r.Valid() && r.z == z && r.blob == Open(z, data).value
  {
    hide ParseHeader, ParseFooter, ParseDirectory, ColumnsValid, Find, Column;
    r := null;
    if |data| < HEADER_SIZE + FOOTER_SIZE {
      return;
    }
    var h := ParseHeader(z.crc, data[..HEADER_SIZE]);
    if h.None? {
      return;
    }
    var f := ParseFooter(data[|data| - FOOTER_SIZE..]);
    if f.None? || |data| - FOOTER_SIZE < f.value.dirOffset ||
       z.crc(DirData(data, f.value.dirOffset)) != f.value.dirCRC {
      return;
    }
    var entries := DecodeDirectory(DirData(data, f.value.dirOffset));
    if entries.None? {
      return;
    }
    var cols := IndexEntries(entries.value);
    if cols.None? {
      return;
    }
    var ok := ValidateColumns(h.value, entries.value, cols.value, |data|, f.value.dirOffset);
    if ok {
      assert Open(z, data) == Some(Opened(data, h.value, entries.value));
      r := new Reader(z, Opened(data, h.value, entries.value), cols.value);
    }
  }

  /** The directory as a table; a column listed twice is an error. */
  method IndexEntries(entries: seq<ColEntry>) returns (cols: Option<map<uint64, ColEntry>>)
    ensures cols.Some? <==> DistinctIds(entries)
    ensures cols.Some? ==>
      forall id: uint64 :: Find(entries, id) == if id in cols.value then Some(cols.value[id]) else None
  {
    var m: map<uint64, ColEntry> := map[];
    for i := 0 to |entries|
      invariant DistinctIds(entries[..i])
      invariant forall id :: id in m <==> exists k :: 0 <= k < i && entries[k].id == id
      invariant forall k | 0 <= k < i :: entries[k].id in m && m[entries[k].id] == entries[k]
    {
      if entries[i].id in m {
        return None;
      }
      m := m[entries[i].id := entries[i]];
    }
    assert entries[..|entries|] == entries;
    forall id: uint64 ensures Find(entries, id) == if id in m then Some(m[id]) else None {
      FindNothing(entries, id);
      if id in m {
        var k :| 0 <= k < |entries| && entries[k].id == id;
        FindAt(entries, k);
      } else {
        forall e | e in entries ensures e.id != id {
          var k :| 0 <= k < |entries| && entries[k] == e;
        }
      }
    }
    cols := Some(m);
  }
}
