/** Front-coded dictionaries: each string as the length it shares with the one
    before and the rest, with a full string every so often. */
module Dict {
  import opened Wrappers
  import opened ByteStrings
  import opened Varint
  import opened Words

  const RESTART_INTERVAL := 1024
  const MAX_EXPANSION_FACTOR := 32
  const MAX_EXPANSION_FLOOR := 0x10_0000

  function CommonPrefixLen(a: Text, b: Text): (n: nat)
    ensures n <= |a| && n <= |b| && a[..n] == b[..n]
    ensures n < |a| && n < |b| ==> a[n] != b[n]
  {
    if a == [] || b == [] || a[0] != b[0] then 0 else 1 + CommonPrefixLen(a[1..], b[1..])
  }

  /** `commonPrefixLen`, by a loop. */
  method ComputeCommonPrefix(a: Text, b: Text) returns (n: nat)
    ensures n == CommonPrefixLen(a, b)
  {
    var bound := if |b| < |a| then |b| else |a|;
    n := 0;
    assert a[0..] == a && b[0..] == b;
    while n < bound
      invariant n <= bound
      invariant CommonPrefixLen(a, b) == n + CommonPrefixLen(a[n..], b[n..])
    {
      if a[n] != b[n] {
        return;
      }
      n := n + 1;
    }
  }

  // ---- Entries ----

  /** Entry `i` of the dictionary, after `prev`. */
  function Shared(i: nat, prev: Text, s: Text): (n: nat)
    ensures n <= |prev| && n <= |s| && prev[..n] == s[..n]
  {
    if i % RESTART_INTERVAL != 0 then CommonPrefixLen(prev, s) else 0
  }

  function EntryBytes(i: nat, prev: Text, s: Text): (b: Text)
    ensures |b| > 0
  {
    var n := Shared(i, prev, s);
    PutUvarint(n) + PutUvarint(|s| - n) + s[n..]
  }

  /** The entries from `i` on, after `prev`. */
  function Entries(strs: seq<Text>, i: nat, prev: Text): Text {
    if strs == [] then [] else EntryBytes(i, prev, strs[0]) + Entries(strs[1..], i + 1, strs[0])
  }

  /** One entry read after `prev`: the string and how many bytes it took. */
  function ReadEntry(data: Text, prev: Text): (r: Option<Parsed<Text>>)
    ensures r.Some? ==> 0 < r.value.size <= |data|
  {
    match ReadUvarint(data)
    case None => None
    case Some(shared) =>
      match ReadUvarint(data[shared.size..])
      case None => None
      case Some(suffix) =>
        var at := shared.size + suffix.size;
        if |data| - at < suffix.value || shared.value > |prev| then None
        else Some(Parsed(prev[..shared.value] + data[at..at + suffix.value], at + suffix.value))
  }

  function TotalBytes(strs: seq<Text>): nat {
    if strs == [] then 0 else |strs[0]| + TotalBytes(strs[1..])
  }

  /** The strings of `data` after `prev`, as long as they take no more than
      `budget` bytes. */
  function Expand(data: Text, prev: Text, budget: int): (r: Option<seq<Text>>)
    ensures r.Some? ==> r.value == [] || TotalBytes(r.value) <= budget
    decreases |data|
  {
    if data == [] then Some([])
    else
      match ReadEntry(data, prev)
      case None => None
      case Some(e) =>
        if |e.value| > budget then None
        else
          match Expand(data[e.size..], e.value, budget - |e.value|)
          case None => None
          case Some(rest) => Some([e.value] + rest)
  }

  lemma EntryRoundTrip(i: nat, prev: Text, s: Text, rest: Text)
    requires |s| < TWO_64
    ensures ReadEntry(EntryBytes(i, prev, s) + rest, prev) == Some(Parsed(s, |EntryBytes(i, prev, s)|))
    ensures (EntryBytes(i, prev, s) + rest)[|EntryBytes(i, prev, s)|..] == rest
  {
    hide PutUvarint, ReadUvarint;
    var n := Shared(i, prev, s);
    var a, b, c := PutUvarint(n), PutUvarint(|s| - n), s[n..];
    var data := EntryBytes(i, prev, s) + rest;
    assert data == a + (b + (c + rest));
    UvarintThen(n, b + (c + rest));
    UvarintThen(|s| - n, c + rest);
    var at := |a| + |b|;
    assert data[at..at + |c|] == c;
    assert prev[..n] + c == s;
  }

  /** Reading back what was written: the same strings, if they fit the budget,
      and otherwise nothing. */
  lemma {:induction false} EntriesRoundTrip(strs: seq<Text>, i: nat, prev: Text, budget: int)
    requires forall k | 0 <= k < |strs| :: |strs[k]| < TWO_64
    ensures Expand(Entries(strs, i, prev), prev, budget) ==
            if strs == [] || TotalBytes(strs) <= budget then Some(strs) else None
  {
    hide ReadEntry, EntryBytes;
    if strs != [] {
      EntryRoundTrip(i, prev, strs[0], Entries(strs[1..], i + 1, strs[0]));
      if |strs[0]| <= budget {
        EntriesRoundTrip(strs[1..], i + 1, strs[0], budget - |strs[0]|);
        assert strs == [strs[0]] + strs[1..];
      }
    }
  }

  // ---- The blob ----

  function PutOffsets(offsets: seq<nat>): (b: Text)
    ensures |b| == 8 * |offsets|
  {
    if offsets == [] then [] else PutWord(offsets[0], 8) + PutOffsets(offsets[1..])
  }

  /** The byte offsets of every restart entry from entry `i` at byte `at` on. */
  function Restarts(strs: seq<Text>, i: nat, prev: Text, at: nat): seq<nat> {
    if strs == [] then []
    else (if i % RESTART_INTERVAL == 0 then [at] else []) + Restarts(strs[1..], i + 1, strs[0],
                                                                     at + |EntryBytes(i, prev, strs[0])|)
  }

  function FrontCoded(strs: seq<Text>): Text {
    var offsets := Restarts(strs, 0, [], 0);
    PutUvarint(|offsets|) + PutOffsets(offsets) + Entries(strs, 0, [])
  }

  /** Skips the restart table. */
  function StringData(data: Text): Option<Text> {
    match ReadUvarint(data)
    case None => None
    case Some(count) =>
      if count.value > (|data| - count.size) / 8 then None else Some(data[count.size + 8 * count.value..])
  }

  function Budget(encoded: nat): nat {
    if encoded * MAX_EXPANSION_FACTOR < MAX_EXPANSION_FLOOR then MAX_EXPANSION_FLOOR else encoded * MAX_EXPANSION_FACTOR
  }

  function ExpandDict(data: Text): Option<seq<Text>> {
    if data == [] then Some([])
    else
      match StringData(data)
      case None => None
      case Some(strData) => Expand(strData, [], Budget(|strData|))
  }

  lemma {:induction false} FewRestarts(strs: seq<Text>, i: nat, prev: Text, at: nat)
    ensures |Restarts(strs, i, prev, at)| <= |strs|
  {
    if strs != [] {
      FewRestarts(strs[1..], i + 1, strs[0], at + |EntryBytes(i, prev, strs[0])|);
    }
  }

  lemma StringDataIs(strs: seq<Text>)
    requires |strs| < TWO_64
    ensures StringData(FrontCoded(strs)) == Some(Entries(strs, 0, []))
  {
    FewRestarts(strs, 0, [], 0);
    SkippedTable(Restarts(strs, 0, [], 0), Entries(strs, 0, []));
  }

  lemma SkippedTable(offsets: seq<nat>, entries: Text)
    requires |offsets| < TWO_64
    ensures StringData(PutUvarint(|offsets|) + PutOffsets(offsets) + entries) == Some(entries)
  {
    hide PutUvarint, ReadUvarint, PutOffsets;
    var head, table := PutUvarint(|offsets|), PutOffsets(offsets);
    var data := head + table + entries;
    assert data == head + (table + entries);
    UvarintThen(|offsets|, table + entries);
    assert |offsets| <= (|data| - |head|) / 8;
    assert data[|head| + 8 * |offsets|..] == entries;
  }

  /** A dictionary is read back exactly when its strings fit the expansion
      budget of its encoding: a megabyte, or 32 times the encoded strings. */
  lemma DictRoundTrip(strs: seq<Text>)
    requires |strs| < TWO_64 && forall k | 0 <= k < |strs| :: |strs[k]| < TWO_64
    ensures ExpandDict(FrontCoded(strs)) ==
            if TotalBytes(strs) <= Budget(|Entries(strs, 0, [])|) then Some(strs) else None
    ensures ExpandDict(FrontCoded(strs)).Some? <==>
            TotalBytes(strs) <= 1048576 || TotalBytes(strs) <= 32 * |Entries(strs, 0, [])|
  {
    StringDataIs(strs);
    EntriesRoundTrip(strs, 0, [], Budget(|Entries(strs, 0, [])|));
  }

  // ---- Building and expanding, by loops ----

  function LastOf(prev: Text, strs: seq<Text>): Text {
    if strs == [] then prev else strs[|strs| - 1]
  }

  lemma {:induction false} EntriesSplit(strs: seq<Text>, more: seq<Text>, i: nat, prev: Text)
    ensures Entries(strs + more, i, prev) == Entries(strs, i, prev) + Entries(more, i + |strs|, LastOf(prev, strs))
  {
    hide EntryBytes;
    if strs == [] {
      assert strs + more == more;
    } else {
      assert (strs + more)[1..] == strs[1..] + more;
      EntriesSplit(strs[1..], more, i + 1, strs[0]);
    }
  }

  lemma {:induction false} RestartsSplit(strs: seq<Text>, more: seq<Text>, i: nat, prev: Text, at: nat)
    ensures Restarts(strs + more, i, prev, at) ==
            Restarts(strs, i, prev, at) + Restarts(more, i + |strs|, LastOf(prev, strs), at + |Entries(strs, i, prev)|)
  {
    hide EntryBytes, Shared;
    if strs == [] {
      assert strs + more == more;
    } else {
      assert (strs + more)[1..] == strs[1..] + more && (strs + more)[0] == strs[0];
      RestartsSplit(strs[1..], more, i + 1, strs[0], at + |EntryBytes(i, prev, strs[0])|);
    }
  }

  lemma OneEntry(s: Text, i: nat, prev: Text, at: nat)
    ensures Entries([s], i, prev) == EntryBytes(i, prev, s)
    ensures Restarts([s], i, prev, at) == if i % RESTART_INTERVAL == 0 then [at] else []
  {
    hide EntryBytes;
    assert [s][1..] == [];
  }

  method BuildFrontCodedDict(strs: seq<Text>) returns (buf: Text)
    ensures buf == FrontCoded(strs)
  {
    hide EntryBytes, Entries, Restarts, PutUvarint, PutOffsets, PutWord;
    if |strs| == 0 {
      EmptyDict();
      return PutUvarint(0);
    }
    var strData: Text := [];
    var restartOffsets: seq<nat> := [];
    var prev: Text := [];
    NoEntries();
    assert strs[..0] == [];
    for i := 0 to |strs|
      invariant strData == Entries(strs[..i], 0, []) && restartOffsets == Restarts(strs[..i], 0, [], 0)
      invariant prev == LastOf([], strs[..i])
    {
      var s := strs[i];
      assert strs[..i + 1] == strs[..i] + [s];
      EntriesSplit(strs[..i], [s], 0, []);
      RestartsSplit(strs[..i], [s], 0, [], 0);
      OneEntry(s, i, prev, |strData|);
      EntryIs(i, prev, s);
      var shared := 0;
      if i % RESTART_INTERVAL != 0 {
        shared := ComputeCommonPrefix(prev, s);
      } else {
        restartOffsets := restartOffsets + [|strData|];
      }
      var suffix := s[shared..];
      strData := strData + (PutUvarint(shared) + PutUvarint(|suffix|) + suffix);
      prev := s;
    }
    assert strs[..|strs|] == strs;
    buf := PutUvarint(|restartOffsets|);
    var k := 0;
    NoOffsets();
    assert restartOffsets[..0] == [];
    while k < |restartOffsets|
      invariant 0 <= k <= |restartOffsets|
      invariant buf == PutUvarint(|restartOffsets|) + PutOffsets(restartOffsets[..k])
    {
      assert restartOffsets[..k + 1] == restartOffsets[..k] + [restartOffsets[k]];
      OffsetsAppend(restartOffsets[..k], restartOffsets[k]);
      buf := buf + PutWord(restartOffsets[k], 8);
      k := k + 1;
    }
    assert restartOffsets[..k] == restartOffsets;
    buf := buf + strData;
  }

  lemma EmptyDict()
    ensures FrontCoded([]) == PutUvarint(0)
  {
  }

  lemma NoEntries()
    ensures Entries([], 0, []) == [] && Restarts([], 0, [], 0) == []
  {
  }

  lemma NoOffsets()
    ensures PutOffsets([]) == []
  {
  }

  lemma EntryIs(i: nat, prev: Text, s: Text)
    ensures var n := if i % RESTART_INTERVAL != 0 then CommonPrefixLen(prev, s) else 0;
      EntryBytes(i, prev, s) == PutUvarint(n) + PutUvarint(|s[n..]|) + s[n..]
  {
  }

  lemma {:induction false} OffsetsAppend(offsets: seq<nat>, v: nat)
    ensures PutOffsets(offsets + [v]) == PutOffsets(offsets) + PutWord(v, 8)
  {
    hide PutWord;
    if offsets == [] {
      assert [v][1..] == [] && [] + [v] == [v];
    } else {
      assert (offsets + [v])[1..] == offsets[1..] + [v];
      OffsetsAppend(offsets[1..], v);
    }
  }

  lemma ExpandStep(data: Text, prev: Text, budget: int)
    ensures data == [] ==> Expand(data, prev, budget) == Some([])
    ensures data != [] && (ReadEntry(data, prev).None? || |ReadEntry(data, prev).value.value| > budget) ==>
      Expand(data, prev, budget).None?
    ensures data != [] && ReadEntry(data, prev).Some? && |ReadEntry(data, prev).value.value| <= budget ==>
      var e := ReadEntry(data, prev).value; var rest := Expand(data[e.size..], e.value, budget - |e.value|);
      Expand(data, prev, budget) == if rest.Some? then Some([e.value] + rest.value) else None
  {
  }

  method SkipTable(data: Text) returns (r: Option<Text>)
    ensures r == StringData(data)
  {
    var count := ReadUvarint(data);
    if count.None? || count.value.value > (|data| - count.value.size) / 8 {
      return None;
    }
    r := Some(data[count.value.size + 8 * count.value.value..]);
  }

  method DecodeDict(data: Text) returns (r: Option<seq<Text>>)
    ensures r == ExpandDict(data)
  {
    hide Expand, ReadUvarint, StringData, ReadEntry;
    if |data| == 0 {
      return Some([]);
    }
    var skipped := SkipTable(data);
    if skipped.None? {
      return None;
    }
    var rest := skipped.value;
    var budget := Budget(|rest|);
    var out: seq<Text> := [];
    var total := 0;
    var prev: Text := [];
    JoinedNothing(Expand(rest, prev, budget));
    while |rest| > 0
      invariant total <= budget
      invariant ExpandDict(data) == Joined(out, Expand(rest, prev, budget - total))
      decreases |rest|
    {
      ExpandStep(rest, prev, budget - total);
      var e := ReadEntry(rest, prev);
      if e.None? {
        return None;
      }
      total := total + |e.value.value|;
      if total > budget {
        return None;
      }
      JoinedMore(out, e.value.value, Expand(rest[e.value.size..], e.value.value, budget - total));
      rest := rest[e.value.size..];
      out := out + [e.value.value];
      prev := e.value.value;
    }
    ExpandStep(rest, prev, budget - total);
    assert out + [] == out;
    r := Some(out);
  }

  // ---- Restart points ----

  function RestartsBefore(i: nat): nat {
    (i + RESTART_INTERVAL - 1) / RESTART_INTERVAL
  }

  lemma {:induction false} RestartOffsetIs(strs: seq<Text>, i: nat, prev: Text, at: nat, m: nat)
    requires m < |strs| && (i + m) % RESTART_INTERVAL == 0
    ensures 0 <= RestartsBefore(i + m) - RestartsBefore(i) < |Restarts(strs, i, prev, at)|
    ensures Restarts(strs, i, prev, at)[RestartsBefore(i + m) - RestartsBefore(i)] == at + |Entries(strs[..m], i, prev)|
    decreases m
  {
    hide EntryBytes;
    if m > 0 {
      RestartOffsetIs(strs[1..], i + 1, strs[0], at + |EntryBytes(i, prev, strs[0])|, m - 1);
      assert strs[..m][1..] == strs[1..][..m - 1] && strs[..m][0] == strs[0];
    }
  }

  /** Reading from restart point `k` with nothing before gives exactly the
      entries from `k` intervals on. */
  lemma RestartDecodes(strs: seq<Text>, k: nat, budget: int)
    requires k * RESTART_INTERVAL < |strs| && forall i | 0 <= i < |strs| :: |strs[i]| < TWO_64
    ensures var m, offsets, strData := k * RESTART_INTERVAL, Restarts(strs, 0, [], 0), Entries(strs, 0, []);
      && k < |offsets| && offsets[k] <= |strData|
      && Expand(strData[offsets[k]..], [], budget) == if TotalBytes(strs[m..]) <= budget then Some(strs[m..]) else None
  {
    hide EntryBytes, Restarts, Entries, Expand, TotalBytes;
    var m := k * RESTART_INTERVAL;
    RestartOffsetIs(strs, 0, [], 0, m);
    assert RestartsBefore(m) == k && RestartsBefore(0) == 0;
    assert strs == strs[..m] + strs[m..];
    EntriesSplit(strs[..m], strs[m..], 0, []);
    EntriesAtRestart(strs[m..], m, LastOf([], strs[..m]));
    EntriesRoundTrip(strs[m..], m, [], budget);
  }

  lemma EntriesAtRestart(strs: seq<Text>, i: nat, prev: Text)
    requires i % RESTART_INTERVAL == 0
    ensures Entries(strs, i, prev) == Entries(strs, i, [])
  {
    hide EntryBytes;
    if strs != [] {
      FullAtRestart(i, prev, strs[0]);
    }
  }

  lemma FullAtRestart(i: nat, prev: Text, s: Text)
    requires i % RESTART_INTERVAL == 0
    ensures EntryBytes(i, prev, s) == EntryBytes(i, [], s)
  {
  }

  /** The offsets at the start of `data`. */
  function GetOffsets(data: Text, n: nat): (offsets: seq<nat>)
    requires |data| >= 8 * n
    ensures |offsets| == n
  {
    seq(n, i requires 0 <= i < n => GetWord(data[i * 8..i * 8 + 8]))
  }

  /** The restart table of a dictionary and its string data. */
  function RestartTable(data: Text): Option<(seq<nat>, Text)> {
    match ReadUvarint(data)
    case None => None
    case Some(count) =>
      var rest := data[count.size..];
      if count.value > |rest| / 8 then None else Some((GetOffsets(rest, count.value), rest[8 * count.value..]))
  }

  lemma {:induction false} OffsetsRoundTrip(offsets: seq<nat>, rest: Text, i: nat)
    requires (forall k | 0 <= k < |offsets| :: offsets[k] < TWO_64) && i < |offsets|
    ensures GetWord((PutOffsets(offsets) + rest)[i * 8..i * 8 + 8]) == offsets[i]
    decreases |offsets|
  {
    hide PutWord, GetWord;
    var data, tail := PutOffsets(offsets) + rest, PutOffsets(offsets[1..]) + rest;
    assert data == PutWord(offsets[0], 8) + tail;
    if i == 0 {
      Capacities();
      WordRoundTrip(offsets[0], 8);
      assert data[0..8] == PutWord(offsets[0], 8);
    } else {
      OffsetsRoundTrip(offsets[1..], rest, i - 1);
      assert data[i * 8..i * 8 + 8] == tail[(i - 1) * 8..(i - 1) * 8 + 8];
    }
  }

  lemma TableRoundTrip(offsets: seq<nat>, entries: Text)
    requires |offsets| < TWO_64 && forall k | 0 <= k < |offsets| :: offsets[k] < TWO_64
    ensures RestartTable(PutUvarint(|offsets|) + (PutOffsets(offsets) + entries)) == Some((offsets, entries))
  {
    hide PutUvarint, ReadUvarint, PutOffsets, GetWord;
    var table := PutOffsets(offsets);
    var rest := table + entries;
    UvarintThen(|offsets|, rest);
    assert rest[8 * |offsets|..] == entries;
    forall i | 0 <= i < |offsets| ensures GetWord(rest[i * 8..i * 8 + 8]) == offsets[i] {
      OffsetsRoundTrip(offsets, entries, i);
    }
    assert GetOffsets(rest, |offsets|) == offsets;
  }

  /** The table that was written is the table that is read. */
  lemma RestartTableRoundTrip(strs: seq<Text>)
    requires |strs| < TWO_64 && forall k | 0 <= k < |Restarts(strs, 0, [], 0)| :: Restarts(strs, 0, [], 0)[k] < TWO_64
    ensures RestartTable(FrontCoded(strs)) == Some((Restarts(strs, 0, [], 0), Entries(strs, 0, [])))
  {
    hide PutUvarint, PutOffsets, Restarts, Entries, RestartTable;
    var offsets, entries := Restarts(strs, 0, [], 0), Entries(strs, 0, []);
    FewRestarts(strs, 0, [], 0);
    assert FrontCoded(strs) == PutUvarint(|offsets|) + (PutOffsets(offsets) + entries);
    TableRoundTrip(offsets, entries);
  }
}
