/** Two encoded files, opened and compared. */
module FileCompare {
  import opened Wrappers
  import opened ByteStrings
  import opened TargetDiff
  import opened Snapshot
  import opened Blob
  import opened GraphNodes
  import opened GraphColumns
  import opened GraphEncode
  import opened EncodedSnapshot
  import opened MerkleClosure
  import opened Affected
  import opened EndToEnd
  import opened FileSnapshot
  import Refinement
  import TgbDiff
  import B = Blocks

  /** What a comparison gives: the fast report and the reference's. */
  datatype Reports = Reports(fast: seq<TgbDiff.Entry>, slow: map<Text, ChangedTarget>)

  /** `data` is the file of the columns. */
  ghost predicate FileOf(z: Codec, c: Columns, data: Text) {
    data == GraphFile(z, c) && Addressable(z, c)
  }

  /** The reader accepts the file, its dictionaries included. */
  ghost predicate Accepts(z: Codec, c: Columns) {
    Opens(z, c) && DictsFit(c)
  }

  /** Opens a file and reads what the comparison needs of it. */
  method ReadFile(z: Codec, data: Text, ghost c: Columns) returns (r: Option<Snapshot>)
    requires Lossless(z) && Rectangular(c) && |c.blockStarts| == |c.blockDigests| && FileOf(z, c, data)
    ensures r == if Accepts(z, c) then Some(SnapshotOf(c)) else None
  {
    hide Lossless, Rectangular, Addressable, Opens, DictsFit, Open, ReadSnapshot, SnapshotOf, GraphFile;
    FileIsSnapshot(z, c);
    var b := Open(z, data);
    if b.None? {
      return None;
    }
    r := ReadSnapshot(z, b.value);
  }

  /** The files of two hashed revisions: when the reader accepts both, the fast
      comparison of what it reads of their bytes reports exactly what the
      reference reports of the graphs read from them, distances included. */
  method CompareFiles(z: Codec, data: Text, data': Text, maxDistance: int, seedAttrs: Option<set<Text>>,
                      ghost hash: B.Hash, ghost doubled: Text -> bool,
                      ghost b: Revision, ghost gb: TargetGraph, ghost nodes: seq<NodeInfo>, ghost c: Columns,
                      ghost a: Revision, ghost ga: TargetGraph, ghost nodes': seq<NodeInfo>, ghost c': Columns)
    returns (r: Option<Reports>)
    requires Lossless(z) && FileOf(z, c, data) && FileOf(z, c', data')
    requires Comparable(doubled, b, a)
    requires EndToEnd.Stored(hash, doubled, b, gb, nodes, c) && EndToEnd.Stored(hash, doubled, a, ga, nodes', c')
    requires BlocksApart(hash, nodes, c, nodes', c')
    ensures Rectangular(c) && Rectangular(c') && SnapshotOf(c).WellFormed() && SnapshotOf(c').WellFormed()
    ensures r.Some? <==> Accepts(z, c) && Accepts(z, c')
    ensures r.Some? ==>
      Refinement.ReferenceHolds(Semantic(SnapshotOf(c), seedAttrs), Semantic(SnapshotOf(c'), seedAttrs), maxDistance,
                                r.value.slow)
    ensures r.Some? ==> forall e | e in r.value.fast ::
        e.name in r.value.slow && e.changeType == r.value.slow[e.name].changeType &&
        e.distance == r.value.slow[e.name].distance
    ensures r.Some? ==> forall n | n in r.value.slow :: exists e :: e in r.value.fast && e.name == n
    ensures r.Some? ==>
      forall i, j | 0 <= i < j < |r.value.fast| :: Less(r.value.fast[i].name, r.value.fast[j].name)
    ensures r.Some? && WellNamed(b) && WellNamed(a) ==> NamesAffected(b, a, r.value.fast)
  {
    hide *;
    ReadyToCompare(hash, doubled, b, gb, nodes, c, a, ga, nodes', c', seedAttrs);
    BlocksPair(hash, doubled, b, gb, nodes, c);
    BlocksPair(hash, doubled, a, ga, nodes', c');
    var before := ReadFile(z, data, c);
    var after := ReadFile(z, data', c');
    if before.None? || after.None? {
      return None;
    }
    var report := TgbDiff.Compare(before.value, after.value, maxDistance, seedAttrs);
    var sb := SemanticGraph(before.value, seedAttrs);
    var sa := SemanticGraph(after.value, seedAttrs);
    var changed := Compare(sb, sa, maxDistance);
    ReferenceReport(sb, sa, maxDistance, changed);
    AscendingReport(sb, sa, maxDistance, report.value);
    HashedComparisonsAgree(doubled, b, a, sb, sa, maxDistance, report.value, changed);
    AllReportedExactly(doubled, b, a, sb, sa, maxDistance, report.value);
    r := Some(Reports(report.value, changed));
  }

  lemma BlocksPair(hash: B.Hash, doubled: Text -> bool, r: Revision, g: TargetGraph, nodes: seq<NodeInfo>, c: Columns)
    requires EndToEnd.Stored(hash, doubled, r, g, nodes, c)
    ensures |c.blockStarts| == |c.blockDigests|
  {
    hide Revision.Hashed, Carries, Encodes;
    BlocksWellFormed(hash, g, nodes, c);
  }
}
