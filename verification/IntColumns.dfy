/** Columns of numbers: plain, delta-coded, and name IDs that start afresh with
    every package. All arithmetic is 32-bit, as in the encoder and reader. */
module IntColumns {
  import opened Wrappers
  import opened ByteStrings
  import opened Varint

  // ---- Streams of numbers ----

  function PutAll(vs: seq<uint64>): Text {
    if vs == [] then [] else PutUvarint(vs[0]) + PutAll(vs[1..])
  }

  /** The numbers at the start of `data`, up to the first one that is not
      readable. */
  function ReadAll(data: Text): (vs: seq<uint64>)
    decreases |data|
  {
    match ReadUvarint(data)
    case None => []
    case Some(p) => [p.value] + ReadAll(data[p.size..])
  }

  lemma {:induction false} StreamRoundTrip(vs: seq<uint64>)
    ensures ReadAll(PutAll(vs)) == vs
  {
    if vs != [] {
      UvarintThen(vs[0], PutAll(vs[1..]));
      StreamRoundTrip(vs[1..]);
    }
  }

  lemma {:induction false} PutAllAppend(vs: seq<uint64>, ws: seq<uint64>)
    ensures PutAll(vs + ws) == PutAll(vs) + PutAll(ws)
  {
    if vs == [] {
      assert vs + ws == ws;
    } else {
      assert (vs + ws)[1..] == vs[1..] + ws;
      PutAllAppend(vs[1..], ws);
    }
  }

  // ---- Plain ----

  function Plain(vals: seq<int32>): (vs: seq<uint64>)
    ensures |vs| == |vals|
  {
    seq(|vals|, i requires 0 <= i < |vals| => Uint64(vals[i]))
  }

  function Narrow(vs: seq<uint64>): (vals: seq<int32>)
    ensures |vals| == |vs|
  {
    seq(|vs|, i requires 0 <= i < |vs| => Int32(vs[i]))
  }

  /** A 32-bit number survives being widened to 64 bits and cut again. */
  lemma WidenNarrow(x: int)
    ensures Int32(Uint64(Int32(x))) == Int32(x)
  {
    var y := Int32(x);
    if y < 0 {
      assert Uint64(y) == y + TWO_64;
      assert Uint64(y) + TWO_31 == (y + TWO_31) + 0x1_0000_0000 * TWO_32;
    }
  }

  lemma PlainRoundTrip(vals: seq<int32>)
    ensures Narrow(ReadAll(PutAll(Plain(vals)))) == vals
  {
    StreamRoundTrip(Plain(vals));
    forall i | 0 <= i < |vals| ensures Int32(Uint64(vals[i])) == vals[i] {
      WidenNarrow(vals[i]);
    }
  }

  method EncodePlain(vals: seq<int32>) returns (buf: Text)
    ensures buf == PutAll(Plain(vals))
  {
    buf := [];
    for i := 0 to |vals|
      invariant buf == PutAll(Plain(vals[..i]))
    {
      assert vals[..i + 1] == vals[..i] + [vals[i]];
      assert Plain(vals[..i + 1]) == Plain(vals[..i]) + [Uint64(vals[i])];
      PutAllAppend(Plain(vals[..i]), [Uint64(vals[i])]);
      assert PutAll([Uint64(vals[i])]) == PutUvarint(Uint64(vals[i]));
      buf := buf + PutUvarint(Uint64(vals[i]));
    }
    assert vals[..|vals|] == vals;
  }

  lemma ReadStep(data: Text)
    ensures ReadUvarint(data).None? ==> ReadAll(data) == []
    ensures ReadUvarint(data).Some? ==>
      ReadAll(data) == [ReadUvarint(data).value.value] + ReadAll(data[ReadUvarint(data).value.size..])
    ensures data == [] ==> ReadAll(data) == []
  {
  }

  lemma NarrowStep(v: uint64, vs: seq<uint64>)
    ensures Narrow([v] + vs) == [Int32(v)] + Narrow(vs)
  {
  }

  method DecodePlainInts(data: Text) returns (out: seq<int32>)
    ensures out == Narrow(ReadAll(data))
  {
    hide ReadAll, Narrow, ReadUvarint, Int32;
    out := [];
    var rest := data;
    ReadStep(rest);
    while |rest| > 0
      invariant Narrow(ReadAll(data)) == out + Narrow(ReadAll(rest))
      decreases |rest|
    {
      ReadStep(rest);
      var p := ReadUvarint(rest);
      if p.None? {
        break;
      }
      NarrowStep(p.value.value, ReadAll(rest[p.value.size..]));
      rest := rest[p.value.size..];
      out := out + [Int32(p.value.value)];
    }
    ReadStep(rest);
    NarrowNothing();
  }

  lemma NarrowNothing()
    ensures Narrow([]) == []
  {
  }

  // ---- Deltas ----

  /** Each number less the one before it, 32-bit, widened. */
  function Deltas(vals: seq<int32>, prev: int32): (vs: seq<uint64>)
    ensures |vs| == |vals|
  {
    if vals == [] then [] else [Uint64(Int32(vals[0] - prev))] + Deltas(vals[1..], vals[0])
  }

  /** Running 32-bit sums. */
  function Sums(vs: seq<uint64>, prev: int32): (vals: seq<int32>)
    ensures |vals| == |vs|
  {
    if vs == [] then []
    else
      var v := Int32(prev + Int32(vs[0]));
      [v] + Sums(vs[1..], v)
  }

  lemma AddBack(v: int32, prev: int32)
    ensures Int32(prev + Int32(Uint64(Int32(v - prev)))) == v
  {
    WidenNarrow(v - prev);
    var d := Int32(v - prev);
    assert exists k: int :: d == v - prev + k * TWO_32 by {
      var k := -((v - prev + TWO_31) / TWO_32);
      assert d == v - prev + k * TWO_32;
    }
    var k: int :| d == v - prev + k * TWO_32;
    assert prev + d + TWO_31 == (v + TWO_31) + k * TWO_32;
  }

  /** Deltas come back as the numbers they were taken of, in whatever order. */
  lemma {:induction false} DeltasAddUp(vals: seq<int32>, prev: int32)
    ensures Sums(Deltas(vals, prev), prev) == vals
  {
    if vals != [] {
      AddBack(vals[0], prev);
      DeltasAddUp(vals[1..], vals[0]);
    }
  }

  lemma DeltaRoundTrip(vals: seq<int32>)
    ensures Sums(ReadAll(PutAll(Deltas(vals, 0))), 0) == vals
  {
    StreamRoundTrip(Deltas(vals, 0));
    DeltasAddUp(vals, 0);
  }

  lemma {:induction false} DeltasAppend(vals: seq<int32>, v: int32, prev: int32)
    ensures Deltas(vals + [v], prev) ==
            Deltas(vals, prev) + [Uint64(Int32(v - if vals == [] then prev else vals[|vals| - 1]))]
  {
    if vals != [] {
      assert (vals + [v])[1..] == vals[1..] + [v];
      DeltasAppend(vals[1..], v, vals[0]);
    }
  }

  method EncodeDeltas(vals: seq<int32>) returns (buf: Text)
    ensures buf == PutAll(Deltas(vals, 0))
  {
    buf := [];
    var prev: int32 := 0;
    for i := 0 to |vals|
      invariant buf == PutAll(Deltas(vals[..i], 0)) && prev == if i == 0 then 0 else vals[i - 1]
    {
      var delta := Uint64(Int32(vals[i] - prev));
      assert vals[..i + 1] == vals[..i] + [vals[i]];
      DeltasAppend(vals[..i], vals[i], 0);
      PutAllAppend(Deltas(vals[..i], 0), [delta]);
      assert PutAll([delta]) == PutUvarint(delta);
      buf := buf + PutUvarint(delta);
      prev := vals[i];
    }
    assert vals[..|vals|] == vals;
  }

  lemma SumsStep(v: uint64, vs: seq<uint64>, prev: int32)
    ensures Sums([v] + vs, prev) == [Int32(prev + Int32(v))] + Sums(vs, Int32(prev + Int32(v)))
    ensures Sums([], prev) == []
  {
    assert ([v] + vs)[1..] == vs;
  }

  method DecodeDeltaInts(data: Text) returns (out: seq<int32>)
    ensures out == Sums(ReadAll(data), 0)
  {
    hide ReadAll, Sums, ReadUvarint, Int32;
    out := [];
    var rest := data;
    var prev: int32 := 0;
    while |rest| > 0
      invariant Sums(ReadAll(data), 0) == out + Sums(ReadAll(rest), prev)
      decreases |rest|
    {
      ReadStep(rest);
      var p := ReadUvarint(rest);
      if p.None? {
        break;
      }
      SumsStep(p.value.value, ReadAll(rest[p.value.size..]), prev);
      rest := rest[p.value.size..];
      prev := Int32(prev + Int32(p.value.value));
      out := out + [prev];
    }
    ReadStep(rest);
    SumsStep(0, [], prev);
  }

  // ---- Name IDs ----

  /** Name IDs as deltas within a package, absolute where the package changes. */
  function NameDeltas(pkgs: seq<int32>, names: seq<int32>, prevPkg: int32, prevName: int32): (vs: seq<uint64>)
    requires |pkgs| == |names|
    ensures |vs| == |names|
  {
    if names == [] then []
    else
      [if pkgs[0] != prevPkg then Uint64(names[0]) else Uint64(Int32(names[0] - prevName))] +
      NameDeltas(pkgs[1..], names[1..], pkgs[0], names[0])
  }

  /** The reader's sums; past the last package ID everything is a delta. */
  function NameSums(vs: seq<uint64>, pkgs: seq<int32>, prevPkg: int32, prevName: int32): (names: seq<int32>)
    ensures |names| == |vs|
  {
    if vs == [] then []
    else if pkgs != [] && pkgs[0] != prevPkg then
      var n := Int32(vs[0]);
      [n] + NameSums(vs[1..], pkgs[1..], pkgs[0], n)
    else
      var n := Int32(prevName + Int32(vs[0]));
      [n] + NameSums(vs[1..], if pkgs == [] then [] else pkgs[1..], prevPkg, n)
  }

  lemma {:induction false} NameDeltasAddUp(pkgs: seq<int32>, names: seq<int32>, prevPkg: int32, prevName: int32)
    requires |pkgs| == |names|
    ensures NameSums(NameDeltas(pkgs, names, prevPkg, prevName), pkgs, prevPkg, prevName) == names
  {
    if names != [] {
      WidenNarrow(names[0]);
      AddBack(names[0], prevName);
      NameDeltasAddUp(pkgs[1..], names[1..], pkgs[0], names[0]);
    }
  }

  lemma NameRoundTrip(pkgs: seq<int32>, names: seq<int32>)
    requires |pkgs| == |names|
    ensures NameSums(ReadAll(PutAll(NameDeltas(pkgs, names, -1, 0))), pkgs, -1, 0) == names
  {
    StreamRoundTrip(NameDeltas(pkgs, names, -1, 0));
    NameDeltasAddUp(pkgs, names, -1, 0);
  }

  lemma {:induction false} NameDeltasAppend(pkgs: seq<int32>, names: seq<int32>, p: int32, n: int32, prevPkg: int32,
                                            prevName: int32)
    requires |pkgs| == |names|
    ensures var k := |names|;
      NameDeltas(pkgs + [p], names + [n], prevPkg, prevName) == NameDeltas(pkgs, names, prevPkg, prevName) +
        [if p != (if k == 0 then prevPkg else pkgs[k - 1]) then Uint64(n)
            else Uint64(Int32(n - if k == 0 then prevName else names[k - 1]))]
  {
    if names != [] {
      assert (names + [n])[1..] == names[1..] + [n] && (pkgs + [p])[1..] == pkgs[1..] + [p];
      NameDeltasAppend(pkgs[1..], names[1..], p, n, pkgs[0], names[0]);
    }
  }

  method EncodeNameIDs(pkgs: seq<int32>, names: seq<int32>) returns (buf: Text)
    requires |pkgs| == |names|
    ensures buf == PutAll(NameDeltas(pkgs, names, -1, 0))
  {
    buf := [];
    var prevPkg: int32 := -1;
    var prevName: int32 := 0;
    for i := 0 to |pkgs|
      invariant buf == PutAll(NameDeltas(pkgs[..i], names[..i], -1, 0))
      invariant prevPkg == (if i == 0 then -1 else pkgs[i - 1]) && prevName == if i == 0 then 0 else names[i - 1]
    {
      var pid, nid := pkgs[i], names[i];
      var v := if pid != prevPkg then Uint64(nid) else Uint64(Int32(nid - prevName));
      assert pkgs[..i + 1] == pkgs[..i] + [pid] && names[..i + 1] == names[..i] + [nid];
      NameDeltasAppend(pkgs[..i], names[..i], pid, nid, -1, 0);
      PutAllAppend(NameDeltas(pkgs[..i], names[..i], -1, 0), [v]);
      assert PutAll([v]) == PutUvarint(v);
      buf := buf + PutUvarint(v);
      prevPkg, prevName := pid, nid;
    }
    assert pkgs[..|pkgs|] == pkgs && names[..|names|] == names;
  }

  function From(pkgs: seq<int32>, i: nat): seq<int32> {
    if i <= |pkgs| then pkgs[i..] else []
  }

  lemma NameStep(v: uint64, vs: seq<uint64>, pkgs: seq<int32>, i: nat, prevPkg: int32, prevName: int32)
    ensures var resets := i < |pkgs| && pkgs[i] != prevPkg;
      var n := if resets then Int32(v) else Int32(prevName + Int32(v));
      NameSums([v] + vs, From(pkgs, i), prevPkg, prevName) ==
      [n] + NameSums(vs, From(pkgs, i + 1), if resets then pkgs[i] else prevPkg, n)
  {
    assert ([v] + vs)[1..] == vs;
    if i < |pkgs| {
      assert From(pkgs, i)[1..] == From(pkgs, i + 1);
    }
  }

  method DecodeNameIDs(data: Text, pkgs: seq<int32>) returns (out: seq<int32>)
    ensures out == NameSums(ReadAll(data), pkgs, -1, 0)
  {
    hide ReadAll, NameSums, ReadUvarint, Int32;
    out := [];
    var rest := data;
    var prevPkg: int32 := -1;
    var prevName: int32 := 0;
    var i := 0;
    assert From(pkgs, 0) == pkgs;
    while |rest| > 0
      invariant 0 <= i
      invariant NameSums(ReadAll(data), pkgs, -1, 0) == out + NameSums(ReadAll(rest), From(pkgs, i), prevPkg, prevName)
      decreases |rest|
    {
      ReadStep(rest);
      var p := ReadUvarint(rest);
      if p.None? {
        break;
      }
      NameStep(p.value.value, ReadAll(rest[p.value.size..]), pkgs, i, prevPkg, prevName);
      rest := rest[p.value.size..];
      var nid: int32;
      if i < |pkgs| && pkgs[i] != prevPkg {
        nid := Int32(p.value.value);
        prevPkg := pkgs[i];
      } else {
        nid := Int32(prevName + Int32(p.value.value));
      }
      prevName := nid;
      out := out + [nid];
      i := i + 1;
    }
    ReadStep(rest);
    NoNames(From(pkgs, i), prevPkg, prevName);
  }

  lemma NoNames(pkgs: seq<int32>, prevPkg: int32, prevName: int32)
    ensures NameSums([], pkgs, prevPkg, prevName) == []
  {
  }
}
