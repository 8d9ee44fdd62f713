/** From the columns of a file back to a graph. */
module GraphDecode {
  import opened Wrappers
  import opened ByteStrings
  import opened Varint
  import opened Entity
  import opened FlagColumn
  import opened Container
  import opened Blob
  import opened Snapshot
  import opened GraphNodes
  import opened GraphColumns
  import opened GraphFiles

  /** The texts under their places. */
  function Numbered(texts: seq<Text>): map<int32, Text> {
    if texts == [] then map[] else
      var n := |texts| - 1;
      Numbered(texts[..n])[Int32(n) := texts[n]]
  }

  /** Names to values; of two with one name the later stands. */
  function AttrMap(names: seq<int32>, values: seq<int32>): map<int32, int32>
    requires |names| == |values|
  {
    if names == [] then map[] else
      var n := |names| - 1;
      AttrMap(names[..n], values[..n])[names[n] := values[n]]
  }

  /** Every column reaches as far as the node count says; the source indexes past
      the end of one that does not, and stops there. */
  predicate Indexable(d: Decoded, n: nat, stride: nat) {
    && |d.pkgIDs| >= n && |d.nameIDs| >= n && |d.ruleTypeIDs| >= n && |d.deps| >= n && |d.tags| >= n
    && |d.attrNames| >= n && |d.attrValues| >= n && (forall k | 0 <= k < n :: |d.attrNames[k]| == |d.attrValues[k]|)
    && |d.hashes| >= n * stride
  }

  function DecodedLabel(d: Decoded, n: nat, stride: nat, i: nat): Option<Text>
    requires Indexable(d, n, stride) && i < n
  {
    var pid, nid := d.pkgIDs[i], d.nameIDs[i];
    if 0 <= pid < |d.pkgDict| && 0 <= nid < |d.nameDict| then Some(JoinLabel(Key(d.pkgDict[pid], d.nameDict[nid])))
    else None
  }

  function DecodedHash(d: Decoded, n: nat, stride: nat, i: nat): Text
    requires Indexable(d, n, stride) && i < n
  {
    if Up(d.flags.hashEmpty, i) then [] else
      MulGrows(i, i + 1, stride);
      MulGrows(i + 1, n, stride);
      HexEncode(d.hashes[i * stride..(i + 1) * stride])
  }

  /** Node `i` is target `i`. */
  function DecodedTarget(d: Decoded, n: nat, stride: nat, i: nat): OptimizedTarget
    requires Indexable(d, n, stride) && i < n
  {
    OptimizedTarget(Int32(i), DecodedHash(d, n, stride, i), d.deps[i], d.ruleTypeIDs[i], d.tags[i], Up(d.flags.root, i),
                    Up(d.flags.external, i),
                    AttrMap(d.attrNames[i], d.attrValues[i]))
  }

  predicate LabelsKnown(d: Decoded, n: nat, stride: nat)
    requires Indexable(d, n, stride)
  {
    forall i | 0 <= i < n :: DecodedLabel(d, n, stride, i).Some?
  }

  function DecodedLabels(d: Decoded, n: nat, stride: nat): (labels: seq<Text>)
    requires Indexable(d, n, stride) && LabelsKnown(d, n, stride)
    ensures |labels| == n
  {
    seq(n, i requires 0 <= i < n => DecodedLabel(d, n, stride, i).value)
  }

  function GraphOf(d: Decoded, n: nat, stride: nat): Option<TargetGraph> {
    if !Indexable(d, n, stride) || !LabelsKnown(d, n, stride) then None
    else
      Some(TargetGraph(
        seq(n, i requires 0 <= i < n => DecodedTarget(d, n, stride, i)),
        Metadata(Numbered(DecodedLabels(d, n, stride)), Numbered(d.ruleTypeDict), Numbered(d.tagDict),
                 Numbered(d.attrNameDict),
                 Numbered(d.attrValueDict), if d.fileHashes.Some? then d.fileHashes.value else map[])))
  }

  // ---- The loops ----

  method NumberTexts(texts: seq<Text>) returns (m: map<int32, Text>)
    ensures m == Numbered(texts)
  {
    m := map[];
    for i := 0 to |texts|
      invariant m == Numbered(texts[..i])
    {
      assert texts[..i + 1][..i] == texts[..i];
      m := m[Int32(i) := texts[i]];
    }
    assert texts[..|texts|] == texts;
  }

  method BuildAttrs(names: seq<int32>, values: seq<int32>) returns (attrs: map<int32, int32>)
    requires |names| == |values|
    ensures attrs == AttrMap(names, values)
  {
    attrs := map[];
    for j := 0 to |names|
      invariant attrs == AttrMap(names[..j], values[..j])
    {
      assert names[..j + 1][..j] == names[..j] && values[..j + 1][..j] == values[..j];
      attrs := attrs[names[j] := values[j]];
    }
    assert names[..|names|] == names && values[..|values|] == values;
  }

  lemma NumberedMore(texts: seq<Text>, s: Text)
    ensures Numbered(texts + [s]) == Numbered(texts)[Int32(|texts|) := s]
  {
    assert (texts + [s])[..|texts|] == texts;
  }

  method BuildTargets(d: Decoded, n: nat, stride: nat) returns (r: Option<(seq<OptimizedTarget>, map<int32, Text>)>)
    requires Indexable(d, n, stride)
    ensures r.Some? <==> LabelsKnown(d, n, stride)
    ensures r.Some? ==> r.value.1 == Numbered(DecodedLabels(d, n, stride))
    ensures r.Some? ==> r.value.0 == seq(n, i requires 0 <= i < n => DecodedTarget(d, n, stride, i))
  {
    hide Indexable, Numbered, DecodedLabel, DecodedHash, Up;
    var targets: seq<OptimizedTarget> := [];
    var names: map<int32, Text> := map[];
    ghost var labels: seq<Text> := [];
    assert names == Numbered([]) by {
      NothingNumbered();
    }
    for i := 0 to n
      invariant |targets| == |labels| == i && names == Numbered(labels)
      invariant forall k | 0 <= k < i ::
          DecodedLabel(d, n, stride, k) == Some(labels[k]) && targets[k] == DecodedTarget(d, n, stride, k)
    {
      var name := DecodedLabel(d, n, stride, i);
      if name.None? {
        return None;
      }
      NumberedMore(labels, name.value);
      names := names[Int32(i) := name.value];
      labels := labels + [name.value];
      ColumnsReach(d, n, stride, i);
      var attrs := BuildAttrs(d.attrNames[i], d.attrValues[i]);
      targets := targets + [OptimizedTarget(Int32(i), DecodedHash(d, n, stride, i), d.deps[i], d.ruleTypeIDs[i],
          d.tags[i],
                                            Up(d.flags.root, i), Up(d.flags.external, i), attrs)];
    }
    assert labels == DecodedLabels(d, n, stride);
    r := Some((targets, names));
  }

  lemma NothingNumbered()
    ensures Numbered([]) == map[]
  {
  }

  lemma ColumnsReach(d: Decoded, n: nat, stride: nat, i: nat)
    requires Indexable(d, n, stride) && i < n
    ensures i < |d.deps| && i < |d.ruleTypeIDs| && i < |d.tags| && i < |d.attrNames| && i < |d.attrValues|
    ensures |d.attrNames[i]| == |d.attrValues[i]|
  {
  }

  /** `DecodeGraph`, over an opened file. */
  method DecodeGraph(r: Reader) returns (g: Option<TargetGraph>)
    requires r.Valid()
    modifies r`decompressed
    ensures r.Valid()
    ensures var d := DecodeColumns(r.z, r.blob);
      g == if d.Some? then GraphOf(d.value, r.blob.header.nodeCount, r.blob.header.hashBytes) else None
  {
    hide DecodeColumns, Indexable, LabelsKnown, Numbered, DecodedLabels, DecodedTarget;
    var read := ReadGraph(r);
    if read.None? {
      return None;
    }
    var d, n, stride := read.value, r.blob.header.nodeCount, r.blob.header.hashBytes;
    if !Indexable(d, n, stride) {
      return None;
    }
    var ruleTypes := NumberTexts(d.ruleTypeDict);
    var tags := NumberTexts(d.tagDict);
    var attrNames := NumberTexts(d.attrNameDict);
    var attrValues := NumberTexts(d.attrValueDict);
    var built := BuildTargets(d, n, stride);
    if built.None? {
      return None;
    }
    g := Some(TargetGraph(built.value.0, Metadata(built.value.1, ruleTypes, tags, attrNames, attrValues,
                                                  if d.fileHashes.Some? then d.fileHashes.value else map[])));
  }

  /** `Decode`: opens the file, then decodes it. */
  ghost function DecodeBlob(z: Codec, data: Text): Option<TargetGraph> {
    var b :- Open(z, data);
    var d :- DecodeColumns(z, b);
    GraphOf(d, b.header.nodeCount, b.header.hashBytes)
  }

  method Decode(z: Codec, data: Text) returns (g: Option<TargetGraph>)
    ensures g == DecodeBlob(z, data)
  {
    hide DecodeColumns, Open, GraphOf;
    var r := NewReader(z, data);
    if r == null {
      return None;
    }
    g := DecodeGraph(r);
  }
}
