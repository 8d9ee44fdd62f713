/** Columns of lists: one list of numbers per node, with its length in a degree
    column, and every reader of them. */
module ListColumns {
  import opened Wrappers
  import opened ByteStrings
  import opened Varint
  import opened IntColumns
  import opened Totals

  // ---- Writing ----

  /** How the entries of a list are written: dependencies less the entry before
      them and the first one less the node, tags less the entry before them,
      attribute names and values as they are. */
  datatype Coding = Relative | Chained | Absolute

  /** Entry `j` of node `i`'s list after `prev`. */
  function EntryBytes(coding: Coding, i: int, j: nat, prev: int32, d: int32): Text {
    if coding.Relative? && j == 0 then PutZigzag(Near(d, i))
    else PutUvarint(Uint64(if coding.Absolute? then d else Int32(d - prev)))
  }

  /** `int64(d) - int64(i)`. */
  function Near(d: int32, i: int): int64 {
    if -TWO_63 <= d - i < TWO_63 then d - i else 0
  }

  function ListBytes(coding: Coding, i: int, list: seq<int32>, j: nat, prev: int32): Text {
    if list == [] then [] else EntryBytes(coding, i, j, prev, list[0]) + ListBytes(coding, i, list[1..], j + 1, list[0])
  }

  /** The lists of nodes `i` and on, end to end. */
  function Column(coding: Coding, lists: seq<seq<int32>>, i: nat): Text {
    if lists == [] then [] else ListBytes(coding, i, lists[0], 0, 0) + Column(coding, lists[1..], i + 1)
  }

  // ---- Reading ----

  /** Entry `j` read after `prev`. */
  function ReadEntry(coding: Coding, data: Text, i: int, j: nat, prev: int32): (r: Option<Parsed<int32>>)
    ensures r.Some? ==> 0 < r.value.size <= |data|
  {
    if coding.Relative? && j == 0 then
      match ReadZigzag(data)
      case None => None
      case Some(p) => Some(Parsed(Int32(Int32(p.value) + Int32(i)), p.size))
    else
      match ReadUvarint(data)
      case None => None
      case Some(p) => Some(Parsed(if coding.Absolute? then Int32(p.value) else Int32(prev + Int32(p.value)), p.size))
  }

  /** Entries `j` up to `deg` of node `i`'s list. */
  function ReadList(coding: Coding, data: Text, i: int, j: nat, deg: nat, prev: int32): (r: Option<Parsed<seq<int32>>>)
    requires j <= deg
    ensures r.Some? ==> r.value.size <= |data| && |r.value.value| == deg - j
    decreases deg - j
  {
    if j == deg then Some(Parsed([], 0))
    else
      match ReadEntry(coding, data, i, j, prev)
      case None => None
      case Some(e) =>
        match ReadList(coding, data[e.size..], i, j + 1, deg, e.value)
        case None => None
        case Some(rest) => Some(Parsed([e.value] + rest.value, e.size + rest.size))
  }

  /** The lists read from a column and where each of them starts, and the end. */
  datatype Walked = Walked(lists: seq<seq<int32>>, offsets: seq<nat>)

  predicate NonNegative(degs: seq<int32>) {
    forall k | 0 <= k < |degs| :: degs[k] >= 0
  }

  /** The lists of nodes `i` and on, from byte `pos` on. */
  function Walk(coding: Coding, data: Text, degs: seq<int32>, i: nat, pos: nat): (r: Option<Walked>)
    requires NonNegative(degs) && i <= |degs| && pos <= |data|
    ensures r.Some? ==> |r.value.lists| == |degs| - i && |r.value.offsets| == |degs| - i + 1
    decreases |degs| - i
  {
    if i == |degs| then Some(Walked([], [pos]))
    else
      match ReadList(coding, data[pos..], i, 0, degs[i], 0)
      case None => None
      case Some(p) =>
        match Walk(coding, data, degs, i + 1, pos + p.size)
        case None => None
        case Some(w) => Some(Walked([p.value] + w.lists, [pos] + w.offsets))
  }

  /** No degree is negative, and no prefix claims more entries than bytes. */
  predicate DegsValid(degs: seq<int32>, bytes: nat) {
    NonNegative(degs) && Sum(degs) <= bytes
  }

  /** What every reader of a list column makes of its bytes. */
  function Lists(coding: Coding, degs: seq<int32>, data: Text): Option<Walked> {
    if DegsValid(degs, |data|) then Walk(coding, data, degs, 0, 0) else None
  }

  // ---- Round trip ----

  lemma NearBack(d: int32, i: int)
    requires 0 <= i < TWO_31
    ensures Int32(Int32(Near(d, i)) + Int32(i)) == d
  {
    var v := Near(d, i);
    var k := (v + TWO_31) / TWO_32;
    assert Int32(v) == v - k * TWO_32;
    assert Int32(v) + i + TWO_31 == (d + TWO_31) - k * TWO_32;
  }

  lemma EntryRoundTrip(coding: Coding, i: int, j: nat, prev: int32, d: int32, rest: Text)
    requires 0 <= i < TWO_31
    ensures var b := EntryBytes(coding, i, j, prev, d);
      ReadEntry(coding, b + rest, i, j, prev) == Some(Parsed(d, |b|)) && (b + rest)[|b|..] == rest
  {
    if coding.Relative? && j == 0 {
      ZigzagRoundTrip(Near(d, i), rest);
      NearBack(d, i);
    } else {
      UvarintThen(Uint64(if coding.Absolute? then d else Int32(d - prev)), rest);
      AddBack(d, prev);
      WidenNarrow(d);
    }
  }

  lemma {:induction false} ListRoundTrip(coding: Coding, i: int, list: seq<int32>, j: nat, prev: int32, rest: Text)
    requires 0 <= i < TWO_31
    ensures ReadList(coding, ListBytes(coding, i, list, j, prev) + rest, i, j, j + |list|, prev) ==
            Some(Parsed(list, |ListBytes(coding, i, list, j, prev)|))
    decreases |list|
  {
    hide EntryBytes, ReadEntry;
    if list != [] {
      var e, more := EntryBytes(coding, i, j, prev, list[0]), ListBytes(coding, i, list[1..], j + 1, list[0]);
      EntryRoundTrip(coding, i, j, prev, list[0], more + rest);
      assert ListBytes(coding, i, list, j, prev) + rest == e + (more + rest);
      ListRoundTrip(coding, i, list[1..], j + 1, list[0], rest);
      assert list == [list[0]] + list[1..];
    }
  }

  predicate DegreesOf(degs: seq<int32>, lists: seq<seq<int32>>) {
    |degs| == |lists| && forall k | 0 <= k < |lists| :: degs[k] == |lists[k]|
  }

  lemma WalkOne(coding: Coding, data: Text, degs: seq<int32>, i: nat, pos: nat, list: seq<int32>, size: nat)
    requires NonNegative(degs) && i < |degs| && pos <= |data|
    requires ReadList(coding, data[pos..], i, 0, degs[i], 0) == Some(Parsed(list, size))
    ensures var rest := Walk(coding, data, degs, i + 1, pos + size);
      rest.Some? ==>
        Walk(coding, data, degs, i, pos) == Some(Walked([list] + rest.value.lists, [pos] + rest.value.offsets))
  {
    hide ReadList;
  }

  /** A column is read back from its node on, whatever stands before. */
  lemma {:induction false} ColumnRoundTrip(coding: Coding, degs: seq<int32>, lists: seq<seq<int32>>, before: Text,
                                           i: nat)
    requires DegreesOf(degs, lists) && NonNegative(degs) && |lists| < TWO_31 && i <= |lists|
    ensures var data := before + Column(coding, lists[i..], i); var w := Walk(coding, data, degs, i, |before|);
      w.Some? && w.value.lists == lists[i..] && w.value.offsets[|lists| - i] == |data|
    decreases |lists| - i
  {
    hide ListBytes, ReadList, Walk, Column, NonNegative;
    if i == |lists| {
      NothingToWalk(coding, degs, lists, before);
    } else {
      var b, more := ListBytes(coding, i, lists[i], 0, 0), Column(coding, lists[i + 1..], i + 1);
      ColumnFirst(coding, lists, i);
      var data := before + (b + more);
      ListRoundTrip(coding, i, lists[i], 0, 0, more);
      assert data[|before|..] == b + more;
      assert data == (before + b) + more;
      ColumnRoundTrip(coding, degs, lists, before + b, i + 1);
      WalkOne(coding, data, degs, i, |before|, lists[i], |b|);
      assert lists[i..] == [lists[i]] + lists[i + 1..];
    }
  }

  lemma NothingToWalk(coding: Coding, degs: seq<int32>, lists: seq<seq<int32>>, before: Text)
    requires NonNegative(degs) && |degs| == |lists|
    ensures before + Column(coding, lists[|lists|..], |lists|) == before
    ensures Walk(coding, before, degs, |lists|, |before|) == Some(Walked([], [|before|]))
  {
  }

  lemma ColumnFirst(coding: Coding, lists: seq<seq<int32>>, i: nat)
    requires i < |lists|
    ensures Column(coding, lists[i..], i) ==
            ListBytes(coding, i, lists[i], 0, 0) + Column(coding, lists[i + 1..], i + 1)
  {
    hide ListBytes;
    assert lists[i..][0] == lists[i] && lists[i..][1..] == lists[i + 1..];
  }

  lemma {:induction false} ListBytesSize(coding: Coding, i: int, list: seq<int32>, j: nat, prev: int32)
    ensures |ListBytes(coding, i, list, j, prev)| >= |list|
  {
    if list != [] {
      ListBytesSize(coding, i, list[1..], j + 1, list[0]);
    }
  }

  lemma {:induction false} ColumnSize(coding: Coding, degs: seq<int32>, lists: seq<seq<int32>>, i: nat)
    requires DegreesOf(degs, lists)
    ensures |Column(coding, lists, i)| >= Sum(degs)
    decreases |lists|
  {
    if lists != [] {
      ListBytesSize(coding, i, lists[0], 0, 0);
      ColumnSize(coding, degs[1..], lists[1..], i + 1);
      SumFront(degs);
    }
  }

  /** Every reader gets the lists that were written. */
  lemma ListsRoundTrip(coding: Coding, degs: seq<int32>, lists: seq<seq<int32>>)
    requires DegreesOf(degs, lists) && |lists| < TWO_31
    ensures Lists(coding, degs, Column(coding, lists, 0)).Some?
    ensures Lists(coding, degs, Column(coding, lists, 0)).value.lists == lists
  {
    ColumnSize(coding, degs, lists, 0);
    ColumnRoundTrip(coding, degs, lists, [], 0);
    assert lists[0..] == lists && [] + Column(coding, lists, 0) == Column(coding, lists, 0);
  }

  // ---- Degrees ----

  method ValidateDegs(degs: seq<int32>, listLen: nat) returns (ok: bool)
    ensures ok <==> DegsValid(degs, listLen)
  {
    var total := 0;
    for i := 0 to |degs|
      invariant forall k | 0 <= k < i :: degs[k] >= 0
      invariant total == Sum(degs[..i]) <= listLen
    {
      if degs[i] < 0 {
        return false;
      }
      assert degs[..i + 1][..i] == degs[..i];
      total := total + degs[i];
      if total > listLen {
        if NonNegative(degs) {
          SumGrows(degs, i + 1, |degs|);
          assert degs[..|degs|] == degs;
        }
        return false;
      }
    }
    assert degs[..|degs|] == degs;
    ok := true;
  }

  // ---- Reading one list by a loop ----

  /** A reading continued: what was read, and what is still to be read. */
  function Continued(list: seq<int32>, size: nat, rest: Option<Parsed<seq<int32>>>): Option<Parsed<seq<int32>>> {
    if rest.Some? then Some(Parsed(list + rest.value.value, size + rest.value.size)) else None
  }

  lemma ReadMore(coding: Coding, data: Text, i: int, j: nat, deg: nat, prev: int32, list: seq<int32>, size: nat)
    requires j < deg
    ensures ReadEntry(coding, data, i, j, prev).None? ==>
      Continued(list, size, ReadList(coding, data, i, j, deg, prev)).None?
    ensures ReadEntry(coding, data, i, j, prev).Some? ==>
      var e := ReadEntry(coding, data, i, j, prev).value;
      Continued(list, size, ReadList(coding, data, i, j, deg, prev)) ==
      Continued(list + [e.value], size + e.size, ReadList(coding, data[e.size..], i, j + 1, deg, e.value))
  {
    hide ReadEntry;
    var e := ReadEntry(coding, data, i, j, prev);
    if e.Some? {
      var rest := ReadList(coding, data[e.value.size..], i, j + 1, deg, e.value.value);
      if rest.Some? {
        assert list + ([e.value.value] + rest.value.value) == (list + [e.value.value]) + rest.value.value;
      }
    }
  }

  lemma ReadStarts(coding: Coding, data: Text, i: int, deg: nat)
    ensures Continued([], 0, ReadList(coding, data, i, 0, deg, 0)) == ReadList(coding, data, i, 0, deg, 0)
  {
    var r := ReadList(coding, data, i, 0, deg, 0);
    if r.Some? {
      assert [] + r.value.value == r.value.value;
    }
  }

  lemma ReadEnds(coding: Coding, data: Text, i: int, deg: nat, prev: int32, list: seq<int32>, size: nat)
    ensures Continued(list, size, ReadList(coding, data, i, deg, deg, prev)) == Some(Parsed(list, size))
  {
    assert list + [] == list;
  }

  /** The entries of one list, appended to `targets`. */
  method AppendList(coding: Coding, data: Text, pos: nat, i: nat, deg: nat, targets: seq<int32>)
    returns (r: Option<Parsed<seq<int32>>>)
    requires pos <= |data|
    ensures var read := ReadList(coding, data[pos..], i, 0, deg, 0);
      r == if read.Some? then Some(Parsed(targets + read.value.value, pos + read.value.size)) else None
  {
    hide ReadEntry, ReadList;
    var at := pos;
    var prev: int32 := 0;
    var out := targets;
    ghost var list: seq<int32> := [];
    ReadStarts(coding, data[pos..], i, deg);
    var j := 0;
    while j < deg
      invariant 0 <= j <= deg && pos <= at <= |data| && out == targets + list
      invariant Continued(list, at - pos, ReadList(coding, data[at..], i, j, deg, prev)) ==
                ReadList(coding, data[pos..], i, 0, deg, 0)
    {
      ReadMore(coding, data[at..], i, j, deg, prev, list, at - pos);
      var e := ReadEntry(coding, data[at..], i, j, prev);
      if e.None? {
        return None;
      }
      assert data[at..][e.value.size..] == data[at + e.value.size..];
      at := at + e.value.size;
      out := out + [e.value.value];
      prev := e.value.value;
      list := list + [e.value.value];
      j := j + 1;
    }
    ReadEnds(coding, data[at..], i, deg, prev, list, at - pos);
    r := Some(Parsed(out, at));
  }

  /** How far one list reaches; its entries are not kept. */
  method SkipList(coding: Coding, data: Text, pos: nat, i: nat, deg: nat) returns (r: Option<nat>)
    requires pos <= |data|
    ensures var read := ReadList(coding, data[pos..], i, 0, deg, 0);
      r == if read.Some? then Some(pos + read.value.size) else None
  {
    hide ReadEntry, ReadList, ReadUvarint, ReadZigzag;
    var at := pos;
    ghost var prev: int32 := 0;
    ghost var list: seq<int32> := [];
    ReadStarts(coding, data[pos..], i, deg);
    var j := 0;
    while j < deg
      invariant 0 <= j <= deg && pos <= at <= |data|
      invariant Continued(list, at - pos, ReadList(coding, data[at..], i, j, deg, prev)) ==
                ReadList(coding, data[pos..], i, 0, deg, 0)
    {
      ReadMore(coding, data[at..], i, j, deg, prev, list, at - pos);
      EntrySize(coding, data[at..], i, j, prev);
      var n: nat;
      if coding.Relative? && j == 0 {
        var v := ReadZigzag(data[at..]);
        if v.None? {
          return None;
        }
        n := v.value.size;
      } else {
        var v := ReadUvarint(data[at..]);
        if v.None? {
          return None;
        }
        n := v.value.size;
      }
      ghost var e := ReadEntry(coding, data[at..], i, j, prev).value;
      assert data[at..][n..] == data[at + n..];
      at := at + n;
      prev := e.value;
      list := list + [e.value];
      j := j + 1;
    }
    ReadEnds(coding, data[at..], i, deg, prev, list, at - pos);
    r := Some(at);
  }

  lemma EntrySize(coding: Coding, data: Text, i: int, j: nat, prev: int32)
    ensures var e := ReadEntry(coding, data, i, j, prev);
      if coding.Relative? && j == 0
      then (e.Some? <==> ReadZigzag(data).Some?) && (e.Some? ==> e.value.size == ReadZigzag(data).value.size)
      else (e.Some? <==> ReadUvarint(data).Some?) && (e.Some? ==> e.value.size == ReadUvarint(data).value.size)
  {
  }

  // ---- Walking a column by a loop ----

  /** A walk continued. */
  function Onward(lists: seq<seq<int32>>, offsets: seq<nat>, rest: Option<Walked>): Option<Walked> {
    if rest.Some? then Some(Walked(lists + rest.value.lists, offsets + rest.value.offsets)) else None
  }

  lemma WalkMore(coding: Coding, data: Text, degs: seq<int32>, i: nat, pos: nat, lists: seq<seq<int32>>,
                 offsets: seq<nat>)
    requires NonNegative(degs) && i < |degs| && pos <= |data|
    ensures var p := ReadList(coding, data[pos..], i, 0, degs[i], 0);
      && (p.None? ==> Onward(lists, offsets, Walk(coding, data, degs, i, pos)).None?)
      && (p.Some? ==> Onward(lists, offsets, Walk(coding, data, degs, i, pos)) ==
                      Onward(lists + [p.value.value], offsets + [pos],
                             Walk(coding, data, degs, i + 1, pos + p.value.size)))
  {
    hide ReadList;
    var p := ReadList(coding, data[pos..], i, 0, degs[i], 0);
    if p.Some? {
      var rest := Walk(coding, data, degs, i + 1, pos + p.value.size);
      if rest.Some? {
        assert lists + ([p.value.value] + rest.value.lists) == (lists + [p.value.value]) + rest.value.lists;
        assert offsets + ([pos] + rest.value.offsets) == (offsets + [pos]) + rest.value.offsets;
      }
    }
  }

  lemma WalkStarts(coding: Coding, data: Text, degs: seq<int32>)
    requires NonNegative(degs)
    ensures Onward([], [], Walk(coding, data, degs, 0, 0)) == Walk(coding, data, degs, 0, 0)
  {
    var w := Walk(coding, data, degs, 0, 0);
    if w.Some? {
      assert [] + w.value.lists == w.value.lists && [] + w.value.offsets == w.value.offsets;
    }
  }

  lemma WalkEnds(coding: Coding, data: Text, degs: seq<int32>, pos: nat, lists: seq<seq<int32>>, offsets: seq<nat>)
    requires NonNegative(degs) && pos <= |data|
    ensures Onward(lists, offsets, Walk(coding, data, degs, |degs|, pos)) == Some(Walked(lists, offsets + [pos]))
  {
    assert lists + [] == lists;
  }

  /** The whole column as one list per node. */
  method DecodeColumns(coding: Coding, degs: seq<int32>, data: Text) returns (r: Option<seq<seq<int32>>>)
    ensures var w := Lists(coding, degs, data); r == if w.Some? then Some(w.value.lists) else None
  {
    hide ReadList, Walk;
    var valid := ValidateDegs(degs, |data|);
    if !valid {
      return None;
    }
    WalkStarts(coding, data, degs);
    var lists: seq<seq<int32>> := [];
    ghost var offsets: seq<nat> := [];
    var pos := 0;
    for i := 0 to |degs|
      invariant 0 <= pos <= |data|
      invariant Onward(lists, offsets, Walk(coding, data, degs, i, pos)) == Walk(coding, data, degs, 0, 0)
    {
      WalkMore(coding, data, degs, i, pos, lists, offsets);
      var read := AppendList(coding, data, pos, i, degs[i], []);
      if read.None? {
        return None;
      }
      NothingBefore(ReadList(coding, data[pos..], i, 0, degs[i], 0).value.value);
      offsets := offsets + [pos];
      lists := lists + [read.value.value];
      pos := read.value.size;
    }
    WalkEnds(coding, data, degs, pos, lists, offsets);
    r := Some(lists);
  }

  lemma NothingBefore<T>(list: seq<T>)
    ensures [] + list == list
  {
  }

  /** The lists end to end. */
  function Flat(lists: seq<seq<int32>>): seq<int32> {
    if lists == [] then [] else Flat(lists[..|lists| - 1]) + lists[|lists| - 1]
  }

  /** Where each list starts in the flat form, and the end. */
  function Starts(lists: seq<seq<int32>>): (starts: seq<nat>)
    ensures |starts| == |lists| + 1 && starts[|lists|] == |Flat(lists)|
  {
    if lists == [] then [0] else Starts(lists[..|lists| - 1]) + [|Flat(lists)|]
  }

  /** The column in compressed-row form. */
  method CompressedRows(coding: Coding, degs: seq<int32>, data: Text) returns (r: Option<(seq<nat>, seq<int32>)>)
    ensures var w := Lists(coding, degs, data);
      r == if w.Some? then Some((Starts(w.value.lists), Flat(w.value.lists))) else None
  {
    hide ReadList, Walk;
    var valid := ValidateDegs(degs, |data|);
    if !valid {
      return None;
    }
    WalkStarts(coding, data, degs);
    var offsets: seq<nat> := [];
    var targets: seq<int32> := [];
    ghost var lists: seq<seq<int32>>, bytes: seq<nat> := [], [];
    var pos := 0;
    for i := 0 to |degs|
      invariant 0 <= pos <= |data| && |lists| == i
      invariant Onward(lists, bytes, Walk(coding, data, degs, i, pos)) == Walk(coding, data, degs, 0, 0)
      invariant targets == Flat(lists) && offsets + [|targets|] == Starts(lists)
    {
      WalkMore(coding, data, degs, i, pos, lists, bytes);
      offsets := offsets + [|targets|];
      var read := AppendList(coding, data, pos, i, degs[i], targets);
      if read.None? {
        return None;
      }
      ghost var list := ReadList(coding, data[pos..], i, 0, degs[i], 0).value.value;
      assert (lists + [list])[..|lists|] == lists;
      bytes, lists := bytes + [pos], lists + [list];
      targets := read.value.value;
      pos := read.value.size;
    }
    WalkEnds(coding, data, degs, pos, lists, bytes);
    offsets := offsets + [|targets|];
    r := Some((offsets, targets));
  }

  /** The byte offset of every list, built in one pass. */
  method ListOffsets(coding: Coding, degs: seq<int32>, data: Text) returns (r: Option<seq<nat>>)
    ensures var w := Lists(coding, degs, data); r == if w.Some? then Some(w.value.offsets) else None
  {
    hide ReadList, Walk;
    var valid := ValidateDegs(degs, |data|);
    if !valid {
      return None;
    }
    WalkStarts(coding, data, degs);
    var offsets: seq<nat> := [];
    ghost var lists: seq<seq<int32>> := [];
    var pos := 0;
    for i := 0 to |degs|
      invariant 0 <= pos <= |data|
      invariant Onward(lists, offsets, Walk(coding, data, degs, i, pos)) == Walk(coding, data, degs, 0, 0)
    {
      WalkMore(coding, data, degs, i, pos, lists, offsets);
      offsets := offsets + [pos];
      var reach := SkipList(coding, data, pos, i, degs[i]);
      if reach.None? {
        return None;
      }
      lists := lists + [ReadList(coding, data[pos..], i, 0, degs[i], 0).value.value];
      pos := reach.value;
    }
    WalkEnds(coding, data, degs, pos, lists, offsets);
    r := Some(offsets + [pos]);
  }

  /** Each list is what is read at its own offset. */
  lemma {:induction false} WalkAt(coding: Coding, data: Text, degs: seq<int32>, i: nat, pos: nat, k: nat)
    requires NonNegative(degs) && i <= k < |degs| && pos <= |data| && Walk(coding, data, degs, i, pos).Some?
    ensures var w := Walk(coding, data, degs, i, pos).value;
      && w.offsets[k - i] <= |data|
      && ReadList(coding, data[w.offsets[k - i]..], k, 0, degs[k], 0).Some?
      && ReadList(coding, data[w.offsets[k - i]..], k, 0, degs[k], 0).value.value == w.lists[k - i]
    decreases k - i
  {
    hide ReadList;
    if i < k {
      var p := ReadList(coding, data[pos..], i, 0, degs[i], 0).value;
      WalkAt(coding, data, degs, i + 1, pos + p.size, k);
    }
  }

  /** One node's list, appended to `buf`, by the offset table: nothing when the
      column is unreadable or the node unknown. */
  method ListAt(coding: Coding, degs: seq<int32>, data: Text, node: nat, buf: seq<int32>) returns (r: seq<int32>)
    ensures var w := Lists(coding, degs, data); r == if w.Some? && node < |degs| then buf + w.value.lists[node] else buf
  {
    hide ReadList, Walk;
    var offsets := ListOffsets(coding, degs, data);
    if offsets.None? || node >= |degs| {
      return buf;
    }
    WalkAt(coding, data, degs, 0, 0, node);
    var read := AppendList(coding, data, offsets.value[node], node, degs[node], buf);
    r := read.value.value;
  }

  /** The flat form holds every list at its start. */
  lemma {:induction false} RowsHoldLists(lists: seq<seq<int32>>, k: nat)
    requires k < |lists|
    ensures 0 <= Starts(lists)[k] <= Starts(lists)[k + 1] <= |Flat(lists)|
    ensures Flat(lists)[Starts(lists)[k]..Starts(lists)[k + 1]] == lists[k]
    decreases |lists|
  {
    var front := lists[..|lists| - 1];
    if k + 1 < |lists| {
      RowsHoldLists(front, k);
      assert front[k] == lists[k];
    }
  }

  // ---- Shards ----

  lemma {:induction false} ColumnAppend(coding: Coding, lists: seq<seq<int32>>, more: seq<seq<int32>>, i: nat)
    ensures Column(coding, lists + more, i) == Column(coding, lists, i) + Column(coding, more, i + |lists|)
  {
    hide ListBytes;
    if lists == [] {
      assert lists + more == more;
    } else {
      assert (lists + more)[1..] == lists[1..] + more && (lists + more)[0] == lists[0];
      ColumnAppend(coding, lists[1..], more, i + 1);
    }
  }

  lemma {:induction false} ListBytesAppend(coding: Coding, i: int, list: seq<int32>, d: int32, j: nat, prev: int32)
    ensures ListBytes(coding, i, list + [d], j, prev) ==
            ListBytes(coding, i, list, j, prev) + EntryBytes(coding, i, j + |list|,
                                                             if list == [] then prev else list[|list| - 1], d)
  {
    hide EntryBytes;
    if list == [] {
      assert list + [d] == [d] && [d][1..] == [];
    } else {
      assert (list + [d])[1..] == list[1..] + [d];
      ListBytesAppend(coding, i, list[1..], d, j + 1, list[0]);
    }
  }

  /** One list, appended to a shard's stream entry by entry. */
  method PutList(coding: Coding, i: nat, list: seq<int32>, stream: Text) returns (out: Text)
    ensures out == stream + ListBytes(coding, i, list, 0, 0)
  {
    hide ListBytes, PutZigzag, PutUvarint;
    out := stream;
    var prev: int32 := 0;
    NoEntries(coding, i);
    assert list[..0] == [];
    for j := 0 to |list|
      invariant out == stream + ListBytes(coding, i, list[..j], 0, 0) && prev == if j == 0 then 0 else list[j - 1]
    {
      assert list[..j + 1] == list[..j] + [list[j]];
      ListBytesAppend(coding, i, list[..j], list[j], 0, 0);
      if coding.Relative? && j == 0 {
        out := out + PutZigzag(Near(list[j], i));
      } else {
        out := out + PutUvarint(Uint64(if coding.Absolute? then list[j] else Int32(list[j] - prev)));
      }
      prev := list[j];
    }
    assert list[..|list|] == list;
  }

  lemma NoEntries(coding: Coding, i: nat)
    ensures ListBytes(coding, i, [], 0, 0) == [] && Column(coding, [], i) == []
  {
  }

  lemma ColumnMore(coding: Coding, lists: seq<seq<int32>>, lo: nat, k: nat)
    requires k < |lists|
    ensures Column(coding, lists[..k + 1], lo) ==
            Column(coding, lists[..k], lo) + ListBytes(coding, lo + k, lists[k], 0, 0)
  {
    hide ListBytes;
    assert lists[..k + 1] == lists[..k] + [lists[k]];
    ColumnAppend(coding, lists[..k], [lists[k]], lo);
    OneList(coding, lists[k], lo + k);
  }

  lemma OneList(coding: Coding, list: seq<int32>, i: nat)
    ensures Column(coding, [list], i) == ListBytes(coding, i, list, 0, 0)
  {
    hide ListBytes;
    var one := [list];
    assert one[1..] == [];
  }

  /** The stream of one shard: nodes `lo` up to `hi`. */
  method EncodeShard(coding: Coding, lists: seq<seq<int32>>, lo: nat, hi: nat) returns (stream: Text)
    requires lo <= hi <= |lists|
    ensures stream == Column(coding, lists[lo..hi], lo)
  {
    hide ListBytes, Column;
    var shard := lists[lo..hi];
    stream := [];
    NoEntries(coding, lo);
    assert shard[..0] == [];
    for i := lo to hi
      invariant stream == Column(coding, shard[..i - lo], lo)
    {
      ColumnMore(coding, shard, lo, i - lo);
      stream := PutList(coding, i, lists[i], stream);
    }
    assert shard[..hi - lo] == shard;
  }

  /** The column written in shards of any length: the streams of the shards, one
      after the other, are the stream of one serial pass. */
  method EncodeColumn(coding: Coding, lists: seq<seq<int32>>, shardLen: nat) returns (column: Text)
    requires shardLen > 0
    ensures column == Column(coding, lists, 0)
  {
    hide ListBytes, Column;
    column := [];
    NoEntries(coding, 0);
    assert lists[..0] == [];
    var lo := 0;
    while lo < |lists|
      invariant 0 <= lo <= |lists|
      invariant column == Column(coding, lists[..lo], 0)
    {
      var hi := if lo + shardLen > |lists| then |lists| else lo + shardLen;
      var stream := EncodeShard(coding, lists, lo, hi);
      assert lists[..hi] == lists[..lo] + lists[lo..hi];
      ColumnAppend(coding, lists[..lo], lists[lo..hi], 0);
      column := column + stream;
      lo := hi;
    }
    assert lists[..lo] == lists;
  }

  /** Shard lengths are multiples of eight, or one shard is all there is. */
  function ShardLen(n: nat, shards: nat): nat
    requires shards > 0
  {
    var len := (n / shards + 8) / 8 * 8;
    if len < 4096 then n else len
  }

  lemma ShardLenIs(n: nat, shards: nat)
    requires shards > 0
    ensures ShardLen(n, shards) == n ||
        (ShardLen(n, shards) >= 8 && ShardLen(n, shards) == 8 * (ShardLen(n, shards) / 8))
  {
  }

  /** Two nodes in one byte of a bitset are in one shard, so shards write bytes
      of their own. */
  lemma ShardsShareNoByte(n: nat, shards: nat, i: nat, j: nat)
    requires shards > 0 && i < n && j < n && i / 8 == j / 8
    ensures i / ShardLen(n, shards) == j / ShardLen(n, shards)
  {
    hide ShardLen;
    ShardLenIs(n, shards);
    var len := ShardLen(n, shards);
    if len != n {
      ShardOfByte(i, len / 8);
      ShardOfByte(j, len / 8);
    } else {
      Quotient(i, n, 0, i);
      Quotient(j, n, 0, j);
    }
  }

  lemma ShardOfByte(i: nat, eighths: nat)
    requires eighths > 0
    ensures i / (8 * eighths) == i / 8 / eighths
  {
    var q, r := i / 8 / eighths, i / 8 % eighths;
    assert i / 8 == q * eighths + r;
    var low := i % 8;
    assert i == 8 * (q * eighths + r) + low;
    assert i == q * (8 * eighths) + (8 * r + low);
    assert 0 <= 8 * r + low < 8 * eighths;
    Quotient(i, 8 * eighths, q, 8 * r + low);
  }

  lemma Quotient(i: nat, d: nat, q: nat, r: nat)
    requires d > 0 && i == q * d + r && r < d
    ensures i / d == q
  {
    var p := i / d;
    assert i == p * d + i % d;
    NoMultiple(if p >= q then p - q else q - p, d, if p >= q then r - i % d else i % d - r);
  }

  lemma {:induction false} NoMultiple(e: nat, d: nat, x: int)
    requires e * d == x < d
    ensures e == 0
  {
    if e > 1 {
      assert (e - 1) * d == x - d;
      NoMultiple(e - 1, d, x - d);
    }
  }
}
