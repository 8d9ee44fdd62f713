/** Writing the columns of a graph to a file and reading them back, step by step. */
module GraphFiles {
  import opened Wrappers
  import opened ByteStrings
  import opened Varint
  import opened Words
  import opened IntColumns
  import opened Dict
  import L = ListColumns
  import A = AttrColumns
  import opened FlagColumn
  import opened StringMap
  import opened Container
  import opened Blob
  import opened GraphColumns

  // ---- Writing ----

  method PutDigests(digests: seq<uint64>) returns (raw: Text)
    ensures raw == PutOffsets(digests)
  {
    raw := [];
    for i := 0 to |digests|
      invariant raw == PutOffsets(digests[..i])
    {
      assert digests[..i + 1] == digests[..i] + [digests[i]];
      OffsetsAppend(digests[..i], digests[i]);
      raw := raw + PutWord(digests[i], 8);
    }
    assert digests[..|digests|] == digests;
  }

  method PutFlags(c: Columns, shardLen: nat) returns (raw: Text)
    requires shardLen > 0
    ensures raw == FlagBytes(c)
  {
    hide Pack;
    var roots := EncodeFlags(c.roots, shardLen);
    raw := roots[..];
    var externals := EncodeFlags(c.externals, shardLen);
    raw := raw + externals[..];
    var empties := EncodeFlags(c.hashEmpties, shardLen);
    raw := raw + empties[..];
  }

  method PutDict(c: Columns, id: nat) returns (data: Text)
    requires id == 1 || id == 2 || id == 9 || id == 12 || id == 16 || id == 17
    ensures data == ColumnBytes(c, id)
  {
    hide FrontCoded;
    data := BuildFrontCodedDict(match id
                                case 1 => c.pkgDict
                                case 2 => c.nameDict
                                case 9 => c.ruleTypeDict
                                case 12 => c.tagDict
                                case 16 => c.attrNameDict
                                case _ => c.attrValueDict);
  }

  method PutLists(c: Columns, id: nat, shardLen: nat) returns (data: Text)
    requires shardLen > 0 && (id == 7 || id == 11 || id == 14 || id == 15)
    ensures data == ColumnBytes(c, id)
  {
    hide L.Column;
    match id {
      case 7 => data := L.EncodeColumn(L.Relative, c.deps, shardLen);
      case 11 => data := L.EncodeColumn(L.Chained, c.tags, shardLen);
      case 14 => data := L.EncodeColumn(L.Absolute, c.attrNames, shardLen);
      case _ => data := L.EncodeColumn(L.Absolute, c.attrValues, shardLen);
    }
  }

  method PutInts(c: Columns, id: nat) returns (data: Text)
    requires Rectangular(c) && (id == 3 || id == 4 || id == 6 || id == 8 || id == 10 || id == 13 || id == 20)
    ensures data == ColumnBytes(c, id)
  {
    hide PutAll, Deltas, NameDeltas, Degrees, ShortLists, ShortTexts;
    match id {
      case 3 => data := EncodeDeltas(c.pkgIDs);
      case 4 => data := EncodeNameIDs(c.pkgIDs, c.nameIDs);
      case 6 => data := EncodePlain(Degrees(c.deps));
      case 8 => data := EncodePlain(c.ruleTypeIDs);
      case 10 => data := EncodePlain(Degrees(c.tags));
      case 13 => data := EncodePlain(Degrees(c.attrNames));
      case _ => data := EncodeDeltas(c.blockStarts);
    }
  }

  method PutColumn(c: Columns, id: nat, shardLen: nat) returns (data: Text)
    requires Rectangular(c) && shardLen > 0 && (0 < id <= 20 || id == 22)
    ensures data == ColumnBytes(c, id)
  {
    hide Rectangular, PutOffsets, MapBytes, FlagBytes;
    if id == 1 || id == 2 || id == 9 || id == 12 || id == 16 || id == 17 {
      data := PutDict(c, id);
    } else if id == 7 || id == 11 || id == 14 || id == 15 {
      data := PutLists(c, id, shardLen);
    } else if id == 5 {
      data := c.hashes;
    } else if id == 18 {
      data := PutFlags(c, shardLen);
    } else if id == 19 {
      data := PutDigests(c.blockDigests);
    } else if id == 22 {
      data := EncodeStringMap(c.fileHashes);
    } else {
      data := PutInts(c, id);
    }
  }

  /** `encoder.write`: every column, then the file around them. */
  method WriteGraph(z: Codec, c: Columns, shardLen: nat) returns (data: Text)
    requires Rectangular(c) && shardLen > 0
    ensures data == GraphFile(z, c)
  {
    hide Rectangular, ColumnBytes, FileBytes;
    var cols: seq<RawCol> := [];
    for k := 0 to ColumnCount(c)
      invariant |cols| == k && forall j | 0 <= j < k :: cols[j] == RawCols(c)[j]
    {
      var bytes := PutColumn(c, ColumnId(k), shardLen);
      cols := cols + [RawCol(ColumnId(k), CodecOf(ColumnId(k)), bytes)];
    }
    assert cols == RawCols(c);
    data := WriteFile(z, HeaderOf(c), cols);
  }

  // ---- Reading ----

  method ReadDict(r: Reader, id: uint64) returns (strs: Option<seq<Text>>)
    requires r.Valid()
    modifies r`decompressed
    ensures r.Valid()
    ensures var bytes := Column(r.z, r.blob, id); strs == if bytes.Some? then ExpandDict(bytes.value) else None
  {
    hide ExpandDict, Column;
    var bytes := r.GetColumn(id);
    if bytes.None? {
      return None;
    }
    strs := DecodeDict(bytes.value);
  }

  function ListsAt(z: Codec, b: Opened, coding: L.Coding, degId: uint64, id: uint64): Option<seq<seq<int32>>>
    requires Readable(b)
  {
    var degBytes :- Column(z, b, degId);
    var bytes :- Column(z, b, id);
    ReadLists(coding, degBytes, bytes)
  }

  /** `decodeDepColumns` and `decodeTagColumns`. */
  method ReadListColumn(r: Reader, coding: L.Coding, degId: uint64, id: uint64) returns (lists: Option<seq<seq<int32>>>)
    requires r.Valid()
    modifies r`decompressed
    ensures r.Valid() && lists == ListsAt(r.z, r.blob, coding, degId, id)
  {
    hide Column, ReadAll, Narrow, L.Lists;
    var degBytes := r.GetColumn(degId);
    if degBytes.None? {
      return None;
    }
    var bytes := r.GetColumn(id);
    if bytes.None? {
      return None;
    }
    var degs := DecodePlainInts(degBytes.value);
    lists := L.DecodeColumns(coding, degs, bytes.value);
  }

  method ReadAttrs(r: Reader) returns (attrs: Option<(seq<seq<int32>>, seq<seq<int32>>)>)
    requires r.Valid()
    modifies r`decompressed
    ensures r.Valid()
    ensures var names, vals := ListsAt(r.z, r.blob, L.Absolute, 13, 14), ListsAt(r.z, r.blob, L.Absolute, 13, 15);
      attrs == if names.Some? && vals.Some? then Some((names.value, vals.value)) else None
  {
    hide Column, ReadAll, Narrow, L.Lists;
    var degBytes := r.GetColumn(13);
    if degBytes.None? {
      return None;
    }
    var nm := r.GetColumn(14);
    if nm.None? {
      return None;
    }
    var vl := r.GetColumn(15);
    if vl.None? {
      return None;
    }
    var degs := DecodePlainInts(degBytes.value);
    attrs := A.DecodeAttrColumns(degs, nm.value, vl.value);
  }

  method ReadFileHashes(r: Reader) returns (m: Option<Option<map<Text, Text>>>)
    requires r.Valid()
    modifies r`decompressed
    ensures r.Valid() && m == ReadSidecar(r.z, r.blob)
  {
    hide Column, MapOf, Find;
    if 22 !in r.cols {
      return Some(None);
    }
    assert Find(r.blob.entries, 22).Some?;
    var bytes := r.GetColumn(22);
    if bytes.None? {
      return None;
    }
    var got := DecodeStringMap(bytes.value);
    if got.None? {
      return None;
    }
    m := Some(Some(got.value));
  }

  datatype Dicts = Dicts(pkg: seq<Text>, name: seq<Text>, ruleType: seq<Text>, tag: seq<Text>, attrName: seq<Text>,
                         attrValue: seq<Text>)

  function DictAt(z: Codec, b: Opened, id: uint64): Option<seq<Text>>
    requires Readable(b)
  {
    var bytes :- Column(z, b, id);
    ExpandDict(bytes)
  }

  function AllDicts(z: Codec, b: Opened): Option<Dicts>
    requires Readable(b)
  {
    var pkg :- DictAt(z, b, 1);
    var name :- DictAt(z, b, 2);
    var ruleType :- DictAt(z, b, 9);
    var tag :- DictAt(z, b, 12);
    var attrName :- DictAt(z, b, 16);
    var attrValue :- DictAt(z, b, 17);
    Some(Dicts(pkg, name, ruleType, tag, attrName, attrValue))
  }

  /** `expandAllDicts`. */
  method ExpandAllDicts(r: Reader) returns (d: Option<Dicts>)
    requires r.Valid()
    modifies r`decompressed
    ensures r.Valid() && d == AllDicts(r.z, r.blob)
  {
    hide Column, ExpandDict;
    var pkg := ReadDict(r, 1);
    if pkg.None? {
      return None;
    }
    var name := ReadDict(r, 2);
    if name.None? {
      return None;
    }
    var ruleType := ReadDict(r, 9);
    if ruleType.None? {
      return None;
    }
    var tag := ReadDict(r, 12);
    if tag.None? {
      return None;
    }
    var attrName := ReadDict(r, 16);
    if attrName.None? {
      return None;
    }
    var attrValue := ReadDict(r, 17);
    if attrValue.None? {
      return None;
    }
    d := Some(Dicts(pkg.value, name.value, ruleType.value, tag.value, attrName.value, attrValue.value));
  }

  datatype Numbers = Numbers(pkgIDs: seq<int32>, nameIDs: seq<int32>, ruleTypeIDs: seq<int32>)

  function AllNumbers(z: Codec, b: Opened): Option<Numbers>
    requires Readable(b)
  {
    var starts :- Column(z, b, 20);
    var c3 :- Column(z, b, 3);
    var pkgIDs := Sums(ReadAll(c3), 0);
    var c4 :- Column(z, b, 4);
    var c8 :- Column(z, b, 8);
    Some(Numbers(pkgIDs, NameSums(ReadAll(c4), pkgIDs, -1, 0), Narrow(ReadAll(c8))))
  }

  method ReadNumbers(r: Reader) returns (n: Option<Numbers>)
    requires r.Valid()
    modifies r`decompressed
    ensures r.Valid() && n == AllNumbers(r.z, r.blob)
  {
    hide Column, ReadAll, Sums, NameSums, Narrow;
    var starts := r.GetColumn(20);
    if starts.None? {
      return None;
    }
    var c3 := r.GetColumn(3);
    if c3.None? {
      return None;
    }
    var pkgIDs := DecodeDeltaInts(c3.value);
    var c4 := r.GetColumn(4);
    if c4.None? {
      return None;
    }
    var nameIDs := DecodeNameIDs(c4.value, pkgIDs);
    var c8 := r.GetColumn(8);
    if c8.None? {
      return None;
    }
    var ruleTypeIDs := DecodePlainInts(c8.value);
    n := Some(Numbers(pkgIDs, nameIDs, ruleTypeIDs));
  }

  /** Everything an opened file holds of a graph. */
  method ReadGraph(r: Reader) returns (d: Option<Decoded>)
    requires r.Valid()
    modifies r`decompressed
    ensures r.Valid() && d == DecodeColumns(r.z, r.blob)
  {
    PartByPart(r.z, r.blob);
    hide Column, DictAt, AllDicts, AllNumbers, ReadLists, ReadSidecar, DecodeFlags, Hashes, DecodeColumns;
    var dicts := ExpandAllDicts(r);
    if dicts.None? {
      return None;
    }
    var numbers := ReadNumbers(r);
    if numbers.None? {
      return None;
    }
    var deps := ReadListColumn(r, L.Relative, COL_DEG, COL_DEPS);
    if deps.None? {
      return None;
    }
    var tags := ReadListColumn(r, L.Chained, 10, 11);
    if tags.None? {
      return None;
    }
    var attrs := ReadAttrs(r);
    if attrs.None? {
      return None;
    }
    var c18 := r.GetColumn(18);
    if c18.None? {
      return None;
    }
    var fileHashes := ReadFileHashes(r);
    if fileHashes.None? {
      return None;
    }
    var s, n := dicts.value, numbers.value;
    d := Some(Decoded(s.pkg, s.name, s.ruleType, s.tag, s.attrName, s.attrValue, n.pkgIDs, n.nameIDs, n.ruleTypeIDs,
                      deps.value, tags.value, attrs.value.0, attrs.value.1,
                      DecodeFlags(c18.value, r.blob.header.nodeCount), Hashes(r.blob), fileHashes.value));
  }

  lemma PartByPart(z: Codec, b: Opened)
    requires Readable(b)
    ensures
      var s, n := AllDicts(z, b), AllNumbers(z, b);
      var deps, tags := ListsAt(z, b, L.Relative, COL_DEG, COL_DEPS), ListsAt(z, b, L.Chained, 10, 11);
      var names, vals := ListsAt(z, b, L.Absolute, 13, 14), ListsAt(z, b, L.Absolute, 13, 15);
      var c18, m := Column(z, b, 18), ReadSidecar(z, b);
      DecodeColumns(z, b) ==
        if s.None? || n.None? || deps.None? || tags.None? || names.None? || vals.None? || c18.None? || m.None? then None
        else Some(Decoded(s.value.pkg, s.value.name, s.value.ruleType, s.value.tag, s.value.attrName, s.value.attrValue,
                          n.value.pkgIDs, n.value.nameIDs, n.value.ruleTypeIDs, deps.value, tags.value, names.value,
                              vals.value,
                          DecodeFlags(c18.value, b.header.nodeCount), Hashes(b), m.value))
  {
    hide Column, ExpandDict, ReadAll, Sums, NameSums, Narrow, ReadLists, ReadSidecar, DecodeFlags, Hashes;
  }
}
