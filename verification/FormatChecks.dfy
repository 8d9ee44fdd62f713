/** What the reader checks of a file before it believes it, in bytes and
    numbers. */
module FormatChecks {
  import opened Wrappers
  import opened ByteStrings
  import opened Varint
  import opened Words
  import opened Bits
  import opened Container
  import opened Blob

  /** The two magic numbers and the version are there, both checksums are right,
      and the stride is one that is known. */
  predicate Sealed(z: Codec, data: Text) {
    && |data| >= 80
    && data[..4] == [84, 71, 66, 49] && data[4..6] == [3, 0] && data[|data| - 4..] == [84, 71, 66, 49]
    && z.crc(data[..56]) == GetWord(data[56..60])
    && GetWord(data[32..34]) in {8, 16, 20}
    && GetWord(data[|data| - 16..|data| - 8]) <= |data| - 16
    && z.crc(data[GetWord(data[|data| - 16..|data| - 8])..|data| - 16]) == GetWord(data[|data| - 8..|data| - 4])
  }

  ghost predicate IsPower(n: nat) {
    exists k: nat :: n == Power2(k)
  }

  /** The columns lie between header and directory, expand to no more than a
      gigabyte each and sixteen times the file or four megabytes together, and
      back the header's counts. */
  ghost predicate WithinBounds(h: Header, entries: seq<ColEntry>, fileSize: nat, dirOffset: nat) {
    && (h.flags == 0 || h.flags == 2) && (h.blockSize == 0 || IsPower(h.blockSize))
    && (forall i, j | 0 <= i < j < |entries| :: entries[i].id != entries[j].id)
    && (forall e | e in entries ::
          && 64 <= e.offset && e.offset + e.compressedSize <= dirOffset && e.rawSize <= 1073741824
          && (e.codec == 0 || e.codec == 1) && (e.codec == 0 ==> e.rawSize == e.compressedSize)
          && (e.codec == 1 && e.rawSize > 0 ==> e.compressedSize > 0))
    && (TotalRaw(entries) <= 4194304 || TotalRaw(entries) <= 16 * fileSize)
    && (h.nodeCount > 0 ==> exists e :: e in entries && e.id == 6 && e.rawSize >= h.nodeCount)
    && (h.nodeCount > 0 ==>
          exists e :: e in entries && e.id == 5 && e.rawSize == h.nodeCount * h.hashBytes % TWO_64)
    && (h.edgeCount > 0 ==> exists e :: e in entries && e.id == 7 && e.rawSize >= h.edgeCount)
    && (forall e | e in entries && e.id == 19 :: e.rawSize % 8 == 0 && e.rawSize / 8 <= h.nodeCount)
  }

  lemma {:induction false} OneOrEven(k: nat)
    ensures Power2(k) == 1 || Power2(k) % 2 == 0
  {
    if k > 0 {
      var half := Power2(k - 1);
      assert Power2(k) == half + half;
    }
  }

  lemma {:induction false} PowersOfTwo(n: nat)
    ensures IsPowerOfTwo(n) <==> IsPower(n)
  {
    assert Power2(0) == 1;
    if n == 1 {
      assert IsPower(n);
    } else if n > 0 && n % 2 == 0 {
      PowersOfTwo(n / 2);
      if IsPower(n / 2) {
        var k: nat :| n / 2 == Power2(k);
        assert n == Power2(k + 1);
      }
      if IsPower(n) {
        var k: nat :| n == Power2(k);
        assert k > 0;
        assert n / 2 == Power2(k - 1);
      }
    } else if IsPower(n) {
      var k: nat :| n == Power2(k);
      OneOrEven(k);
    }
  }

  lemma FoundIs(entries: seq<ColEntry>, id: uint64)
    requires DistinctIds(entries)
    ensures forall e :: Find(entries, id) == Some(e) <==> e in entries && e.id == id
  {
    FindNothing(entries, id);
    forall k | 0 <= k < |entries| ensures Find(entries, entries[k].id) == Some(entries[k]) {
      FindAt(entries, k);
    }
  }

  lemma InsideIs(e: ColEntry, dirOffset: uint64)
    ensures EntryValid(e, dirOffset) <==>
            && 64 <= e.offset && e.offset + e.compressedSize <= dirOffset && e.rawSize <= 1073741824
            && (e.codec == 0 || e.codec == 1) && (e.codec == 0 ==> e.rawSize == e.compressedSize)
            && (e.codec == 1 && e.rawSize > 0 ==> e.compressedSize > 0)
  {
    var sum := e.offset + e.compressedSize;
    assert Uint64(sum) == if sum < TWO_64 then sum else sum - TWO_64;
  }

  lemma LongEnough(entries: seq<ColEntry>, id: uint64, n: nat)
    requires DistinctIds(entries)
    ensures AtLeast(Find(entries, id), n) <==> exists e :: e in entries && e.id == id && e.rawSize >= n
  {
    hide Find;
    FoundIs(entries, id);
    FindNothing(entries, id);
  }

  lemma CountsAre(h: Header, entries: seq<ColEntry>)
    requires DistinctIds(entries)
    ensures CountsBacked(h, entries) <==>
            && (h.nodeCount > 0 ==> exists e :: e in entries && e.id == 6 && e.rawSize >= h.nodeCount)
            && (h.nodeCount > 0 ==>
                  exists e :: e in entries && e.id == 5 && e.rawSize == h.nodeCount * h.hashBytes % TWO_64)
            && (h.edgeCount > 0 ==> exists e :: e in entries && e.id == 7 && e.rawSize >= h.edgeCount)
            && (forall e | e in entries && e.id == 19 :: e.rawSize % 8 == 0 && e.rawSize / 8 <= h.nodeCount)
  {
    hide Find, AtLeast, DistinctIds;
    LongEnough(entries, 6, h.nodeCount);
    LongEnough(entries, 7, h.edgeCount);
    FoundIs(entries, 5);
    FoundIs(entries, 19);
    FindNothing(entries, 5);
    FindNothing(entries, 19);
  }

  lemma HeaderIs(h: Header)
    ensures HeaderValid(h) <==>
            (h.flags == 0 || h.flags == 2) && (h.blockSize == 0 || IsPower(h.blockSize))
  {
    PowersOfTwo(h.blockSize);
  }

  lemma BoundsAre(h: Header, entries: seq<ColEntry>, fileSize: nat, dirOffset: uint64)
    ensures DistinctIds(entries) && ColumnsValid(h, entries, fileSize, dirOffset) <==>
            WithinBounds(h, entries, fileSize, dirOffset)
  {
    hide HeaderValid, IsPower, EntryValid, TotalRaw, Find;
    HeaderIs(h);
    forall e | e in entries
      ensures EntryValid(e, dirOffset) <==>
              && 64 <= e.offset && e.offset + e.compressedSize <= dirOffset && e.rawSize <= 1073741824
              && (e.codec == 0 || e.codec == 1) && (e.codec == 0 ==> e.rawSize == e.compressedSize)
              && (e.codec == 1 && e.rawSize > 0 ==> e.compressedSize > 0)
    {
      InsideIs(e, dirOffset);
    }
    if DistinctIds(entries) {
      CountsAre(h, entries);
    }
  }

  function DirStart(data: Text): nat
    requires |data| >= 80
  {
    GetWord(data[|data| - 16..|data| - 8])
  }

  /** The header that the first bytes spell. */
  function HeaderIn(data: Text): Header
    requires |data| >= 80
  {
    Capacities();
    Header(GetWord(data[8..16]), GetWord(data[16..24]), GetWord(data[24..32]), GetWord(data[6..8]),
           GetWord(data[32..34]))
  }

  lemma HeaderChecked(crc: Checksum, data: Text)
    requires |data| >= 80
    ensures ParseHeader(crc, data[..HEADER_SIZE]) ==
            if data[..4] == [84, 71, 66, 49] && data[4..6] == [3, 0] && crc(data[..56]) == GetWord(data[56..60]) &&
               GetWord(data[32..34]) in {8, 16, 20} then Some(HeaderIn(data))
            else None
  {
    var b := data[..HEADER_SIZE];
    assert b[0..4] == data[..4] && b[4..6] == data[4..6] && b[6..8] == data[6..8] && b[8..16] == data[8..16];
    assert b[16..24] == data[16..24] && b[24..32] == data[24..32] && b[32..34] == data[32..34];
    assert b[0..56] == data[..56] && b[56..60] == data[56..60];
    VersionIs(data[4..6]);
  }

  lemma VersionIs(b: Text)
    requires |b| == 2
    ensures GetWord(b) == VERSION <==> b == [3, 0]
  {
    assert GetWord(b) == b[0] + 256 * GetWord(b[1..]);
    assert GetWord(b[1..]) == b[1] + 256 * GetWord(b[1..][1..]);
    assert b[1..][1..] == [];
  }

  lemma FooterChecked(data: Text)
    requires |data| >= 80
    ensures Pow256(8) == TWO_64 && Pow256(4) == TWO_32
    ensures ParseFooter(data[|data| - FOOTER_SIZE..]) ==
            if data[|data| - 4..] == [84, 71, 66, 49]
            then Some(Footer(DirStart(data), GetWord(data[|data| - 8..|data| - 4]))) else None
  {
    Capacities();
    var b, n := data[|data| - FOOTER_SIZE..], |data|;
    assert b[12..16] == data[n - 4..] && b[0..8] == data[n - 16..n - 8] && b[8..12] == data[n - 8..n - 4];
  }

  /** A file opens exactly when it is sealed, its directory can be read, and its
      columns are within bounds. */
  lemma OpensExactly(z: Codec, data: Text)
    ensures Open(z, data).Some? <==>
            && Sealed(z, data)
            && ParseDirectory(data[DirStart(data)..|data| - 16]).Some?
            && WithinBounds(HeaderIn(data), ParseDirectory(data[DirStart(data)..|data| - 16]).value, |data|,
                            DirStart(data))
  {
    hide ParseHeader, ParseFooter, ParseDirectory, WithinBounds, ColumnsValid, DistinctIds, GetWord;
    if |data| >= 80 {
      HeaderChecked(z.crc, data);
      FooterChecked(data);
      if Sealed(z, data) && ParseDirectory(data[DirStart(data)..|data| - 16]).Some? {
        BoundsAre(HeaderIn(data), ParseDirectory(data[DirStart(data)..|data| - 16]).value, |data|, DirStart(data));
      }
    }
  }
}
