/** The file around the columns: a header, the column bytes, a directory that
    says where each column lies, and a footer that says where the directory is. */
module Container {
  import opened Wrappers
  import opened ByteStrings
  import opened Varint
  import opened Words
  import opened Slices

  type uint32 = x: int | 0 <= x < TWO_32

  type uint16 = x: int | 0 <= x < 0x1_0000

  type Checksum = Text -> uint32

  const MAGIC: Text := [84, 71, 66, 49]
  const VERSION := 3
  const HEADER_SIZE := 64
  const FOOTER_SIZE := 16
  const MAX_DIRECTORY_ENTRIES := 64
  const MAX_COLUMN_RAW_SIZE := 0x4000_0000
  const MAX_TOTAL_RAW_FACTOR := 16
  const MAX_TOTAL_RAW_FLOOR := 0x40_0000
  const CODEC_RAW: byte := 0
  const CODEC_ZSTD: byte := 1
  const REV_CSR: uint16 := 2

  const COL_HASH := 5
  const COL_DEG := 6
  const COL_DEPS := 7
  const COL_BLOCK_DIGEST := 19

  // ---- Header and footer ----

  datatype Header = Header(nodeCount: uint64, edgeCount: uint64, blockSize: uint64, flags: uint16, hashBytes: uint16)

  /** The bytes the header's checksum covers. */
  function HeaderFields(h: Header): (b: Text)
    ensures |b| == 56
  {
    MAGIC + PutWord(VERSION, 2) + PutWord(h.flags, 2) + PutWord(h.nodeCount, 8) + PutWord(h.edgeCount, 8) +
        PutWord(h.blockSize, 8)
    + PutWord(h.hashBytes, 2) + Zeros(22)
  }

  function HeaderBytes(crc: Checksum, h: Header): (b: Text)
    ensures |b| == HEADER_SIZE
  {
    HeaderFields(h) + PutWord(crc(HeaderFields(h)), 4) + Zeros(4)
  }

  predicate StrideKnown(n: nat) {
    n == 8 || n == 16 || n == 20
  }

  function ParseHeader(crc: Checksum, b: Text): Option<Header>
    requires |b| == HEADER_SIZE
  {
    Capacities();
    var flags: uint16 := GetWord(b[6..8]);
    var hashBytes: uint16 := GetWord(b[32..34]);
    if b[0..4] != MAGIC || GetWord(b[4..6]) != VERSION || crc(b[0..56]) != GetWord(b[56..60]) ||
        !StrideKnown(hashBytes) then None
    else Some(Header(GetWord(b[8..16]), GetWord(b[16..24]), GetWord(b[24..32]), flags, hashBytes))
  }

  /** `copy(b[at:], s)`, behind the bytes already `done`. */
  method Put(b: array<byte>, at: nat, s: Text, ghost done: Text)
    requires at == |done| && at + |s| <= b.Length && b[..] == done + Zeros(b.Length - at)
    modifies b
    ensures b[..] == done + s + Zeros(b.Length - at - |s|)
  {
    forall i | 0 <= i < |s| {
      b[at + i] := s[i];
    }
  }

  /** `encodeHeader`: fields written at their offsets of a zeroed array. */
  method EncodeHeader(crc: Checksum, h: Header) returns (b: array<byte>)
    ensures fresh(b) && b[..] == HeaderBytes(crc, h)
  {
    hide PutWord, Zeros;
    b := new byte[HEADER_SIZE](i => 0);
    ghost var done: Text := [];
    assert b[..] == done + Zeros(64) by {
      ZerosAre(b[..]);
    }
    Put(b, 0, MAGIC, done);
    assert done + MAGIC == MAGIC;
    done := MAGIC;
    Put(b, 4, PutWord(VERSION, 2), done);
    done := done + PutWord(VERSION, 2);
    Put(b, 6, PutWord(h.flags, 2), done);
    done := done + PutWord(h.flags, 2);
    Put(b, 8, PutWord(h.nodeCount, 8), done);
    done := done + PutWord(h.nodeCount, 8);
    Put(b, 16, PutWord(h.edgeCount, 8), done);
    done := done + PutWord(h.edgeCount, 8);
    Put(b, 24, PutWord(h.blockSize, 8), done);
    done := done + PutWord(h.blockSize, 8);
    Put(b, 32, PutWord(h.hashBytes, 2), done);
    done := done + PutWord(h.hashBytes, 2);
    SomeZeros(done);
    done := done + Zeros(22);
    assert b[0..56] == done;
    Put(b, 56, PutWord(crc(b[0..56]), 4), done);
  }

  lemma ZerosAre(s: Text)
    requires forall i | 0 <= i < |s| :: s[i] == 0
    ensures s == [] + Zeros(|s|)
  {
  }

  lemma SomeZeros(done: Text)
    ensures done + Zeros(30) == done + Zeros(22) + Zeros(8)
  {
  }

  datatype Footer = Footer(dirOffset: uint64, dirCRC: uint32)

  function FooterBytes(f: Footer): (b: Text)
    ensures |b| == FOOTER_SIZE
  {
    PutWord(f.dirOffset, 8) + PutWord(f.dirCRC, 4) + MAGIC
  }

  function ParseFooter(b: Text): Option<Footer>
    requires |b| == FOOTER_SIZE
  {
    Capacities();
    if b[12..16] != MAGIC then None else Some(Footer(GetWord(b[0..8]), GetWord(b[8..12])))
  }

  lemma FieldsLieAt(h: Header)
    ensures var b := HeaderFields(h);
      && b[0..4] == MAGIC && b[4..6] == PutWord(VERSION, 2) && b[6..8] == PutWord(h.flags, 2)
      && b[8..16] == PutWord(h.nodeCount, 8) && b[16..24] == PutWord(h.edgeCount, 8)
      && b[24..32] == PutWord(h.blockSize, 8) && b[32..34] == PutWord(h.hashBytes, 2)
  {
    hide PutWord, Zeros;
  }

  /** A header is read back exactly when its stride is one of the known ones. */
  lemma HeaderRoundTrip(crc: Checksum, h: Header)
    ensures ParseHeader(crc, HeaderBytes(crc, h)) == if StrideKnown(h.hashBytes) then Some(h) else None
  {
    hide PutWord, GetWord, HeaderFields;
    var fields := HeaderFields(h);
    var check := PutWord(crc(fields), 4);
    var b := HeaderBytes(crc, h);
    assert b == fields + (check + Zeros(4));
    FieldsLieAt(h);
    forall lo, hi | 0 <= lo <= hi <= 56 ensures b[lo..hi] == fields[lo..hi] {
      SliceInFront(fields, check + Zeros(4), lo, hi);
    }
    assert b[0..56] == fields && b[56..60] == check;
    Capacities();
    WordRoundTrip(VERSION, 2);
    WordRoundTrip(h.flags, 2);
    WordRoundTrip(h.nodeCount, 8);
    WordRoundTrip(h.edgeCount, 8);
    WordRoundTrip(h.blockSize, 8);
    WordRoundTrip(h.hashBytes, 2);
    WordRoundTrip(crc(fields), 4);
  }

  lemma FooterRoundTrip(f: Footer)
    ensures ParseFooter(FooterBytes(f)) == Some(f)
  {
    hide PutWord, GetWord;
    var b := FooterBytes(f);
    assert b[0..8] == PutWord(f.dirOffset, 8) && b[8..12] == PutWord(f.dirCRC, 4) && b[12..16] == MAGIC;
    Capacities();
    WordRoundTrip(f.dirOffset, 8);
    WordRoundTrip(f.dirCRC, 4);
  }

  // ---- Directory ----

  datatype ColEntry = ColEntry(id: uint64, codec: byte, offset: uint64, compressedSize: uint64, rawSize: uint64)

  function EntryBytes(e: ColEntry): Text {
    PutUvarint(e.id) + [e.codec] + PutUvarint(e.offset) + PutUvarint(e.compressedSize) + PutUvarint(e.rawSize)
  }

  function EntriesBytes(entries: seq<ColEntry>): Text {
    if entries == [] then [] else EntryBytes(entries[0]) + EntriesBytes(entries[1..])
  }

  function DirectoryBytes(entries: seq<ColEntry>): Text {
    PutUvarint(|entries|) + EntriesBytes(entries)
  }

  function ReadColEntry(b: Text): (r: Option<Parsed<ColEntry>>)
    ensures r.Some? ==> 0 < r.value.size <= |b|
  {
    match ReadUvarint(b)
    case None => None
    case Some(id) =>
      var b1 := b[id.size..];
      if b1 == [] then None else
        var codec, b2 := b1[0], b1[1..];
        match ReadUvarint(b2)
        case None => None
        case Some(off) =>
          var b3 := b2[off.size..];
          match ReadUvarint(b3)
          case None => None
          case Some(comp) =>
            var b4 := b3[comp.size..];
            match ReadUvarint(b4)
            case None => None
            case Some(raw) =>
              Some(Parsed(ColEntry(id.value, codec, off.value, comp.value, raw.value), id.size + 1 + off.size +
                  comp.size + raw.size))
  }

  function ReadEntries(b: Text, n: nat): Option<seq<ColEntry>>
    decreases n
  {
    if n == 0 then Some([])
    else
      match ReadColEntry(b)
      case None => None
      case Some(e) =>
        match ReadEntries(b[e.size..], n - 1)
        case None => None
        case Some(rest) => Some([e.value] + rest)
  }

  /** No more than 64 columns are believed. */
  function ParseDirectory(b: Text): Option<seq<ColEntry>> {
    match ReadUvarint(b)
    case None => None
    case Some(n) => if n.value > MAX_DIRECTORY_ENTRIES then None else ReadEntries(b[n.size..], n.value)
  }

  lemma EntryRoundTrip(e: ColEntry, rest: Text)
    ensures ReadColEntry(EntryBytes(e) + rest) == Some(Parsed(e, |EntryBytes(e)|))
    ensures (EntryBytes(e) + rest)[|EntryBytes(e)|..] == rest
  {
    hide PutUvarint, ReadUvarint;
    var off, comp, raw := PutUvarint(e.offset), PutUvarint(e.compressedSize), PutUvarint(e.rawSize);
    var b4 := raw + rest;
    var b3 := comp + b4;
    var b2 := off + b3;
    var b1 := [e.codec] + b2;
    assert b1[1..] == b2;
    assert EntryBytes(e) + rest == PutUvarint(e.id) + b1;
    UvarintThen(e.id, b1);
    UvarintThen(e.offset, b3);
    UvarintThen(e.compressedSize, b4);
    UvarintThen(e.rawSize, rest);
  }

  lemma {:induction false} EntriesRoundTrip(entries: seq<ColEntry>)
    ensures ReadEntries(EntriesBytes(entries), |entries|) == Some(entries)
  {
    hide EntryBytes, ReadColEntry;
    if entries != [] {
      EntryRoundTrip(entries[0], EntriesBytes(entries[1..]));
      EntriesRoundTrip(entries[1..]);
      assert entries == [entries[0]] + entries[1..];
    }
  }

  /** A directory of no more than 64 columns is read back; a longer one is not. */
  lemma DirectoryRoundTrip(entries: seq<ColEntry>)
    requires |entries| < TWO_64
    ensures ParseDirectory(DirectoryBytes(entries)) ==
            if |entries| <= MAX_DIRECTORY_ENTRIES then Some(entries) else None
  {
    UvarintThen(|entries|, EntriesBytes(entries));
    EntriesRoundTrip(entries);
  }

  /** `decodeDirectory`, record by record. */
  method DecodeDirectory(b: Text) returns (r: Option<seq<ColEntry>>)
    ensures r == ParseDirectory(b)
  {
    hide ReadColEntry, ReadUvarint;
    var n := ReadUvarint(b);
    if n.None? || n.value.value > MAX_DIRECTORY_ENTRIES {
      return None;
    }
    var rest := b[n.value.size..];
    var entries: seq<ColEntry> := [];
    var i := 0;
    JoinedNothing(ReadEntries(rest, n.value.value));
    while i < n.value.value
      invariant 0 <= i <= n.value.value
      invariant ParseDirectory(b) == Joined(entries, ReadEntries(rest, n.value.value - i))
    {
      var e := ReadColEntry(rest);
      if e.None? {
        return None;
      }
      JoinedMore(entries, e.value.value, ReadEntries(rest[e.value.size..], n.value.value - i - 1));
      rest := rest[e.value.size..];
      entries := entries + [e.value.value];
      i := i + 1;
    }
    assert entries + [] == entries;
    r := Some(entries);
  }
}
