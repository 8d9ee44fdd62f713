/** Dictionaries of strings: sorted, each string once, and numbered by place. */
module Interning {
  import opened ByteStrings
  import opened NameOrder
  import opened Sorting
  import opened TextSort

  function Self(s: Text): Text {
    s
  }

  /** `dict` holds exactly the strings of `texts`, strictly ascending. */
  ghost predicate IsDict(dict: seq<Text>, texts: set<Text>) {
    InOrder(Self, texts, dict)
  }

  lemma DictDistinct(dict: seq<Text>, texts: set<Text>)
    requires IsDict(dict, texts)
    ensures NoDuplicates(dict)
  {
    forall i, j | 0 <= i < j < |dict| ensures dict[i] != dict[j] {
      assert Less(Self(dict[i]), Self(dict[j]));
      LessIrreflexive(dict[i]);
    }
  }

  // ---- Sorting and compacting ----

  /** `slices.Compact`. */
  method Compact(sorted: seq<Text>) returns (out: seq<Text>)
    requires Sorted((a, b) => LessEq(a, b), sorted)
    ensures IsDict(out, set s | s in sorted)
  {
    out := [];
    for i := 0 to |sorted|
      invariant forall s :: s in out <==> s in sorted[..i]
      invariant forall x, y | 0 <= x < y < |out| :: Less(out[x], out[y])
      invariant if i == 0 then out == [] else out != [] && out[|out| - 1] == sorted[i - 1]
    {
      assert sorted[..i + 1] == sorted[..i] + [sorted[i]];
      if out == [] || out[|out| - 1] != sorted[i] {
        if i > 0 {
          Ascends(out, sorted, i);
        }
        out := out + [sorted[i]];
      }
    }
    assert sorted[..|sorted|] == sorted;
  }

  lemma Ascends(out: seq<Text>, sorted: seq<Text>, i: nat)
    requires Sorted((a, b) => LessEq(a, b), sorted) && 0 < i < |sorted|
    requires forall x, y | 0 <= x < y < |out| :: Less(out[x], out[y])
    requires out != [] && out[|out| - 1] == sorted[i - 1] != sorted[i]
    ensures forall x | 0 <= x < |out| :: Less(out[x], sorted[i])
  {
    assert LessEq(sorted[i - 1], sorted[i]);
    forall x | 0 <= x < |out| ensures Less(out[x], sorted[i]) {
      if x < |out| - 1 {
        LessTransitive(out[x], sorted[i - 1], sorted[i]);
      }
    }
  }

  method SortCompact(texts: seq<Text>) returns (dict: seq<Text>)
    ensures IsDict(dict, set s | s in texts)
  {
    SortedTexts(texts);
    var sorted := SortTexts(texts);
    SameElements(sorted, texts);
    dict := Compact(sorted);
    assert (set s | s in sorted) == (set s | s in texts);
  }

  /** Every string of a table once, in order; the table is walked in any order. */
  method SortedUniqueStrings<K(==)>(m: map<K, Text>) returns (dict: seq<Text>)
    ensures IsDict(dict, m.Values)
  {
    var todo := m.Keys;
    var texts: seq<Text> := [];
    while todo != {}
      invariant todo <= m.Keys
      invariant forall s :: s in texts <==> exists k :: k in m.Keys - todo && m[k] == s
    {
      var k :| k in todo;
      ghost var was := texts;
      texts := texts + [m[k]];
      forall s ensures s in texts <==> exists j :: j in m.Keys - (todo - {k}) && m[j] == s {
        if s in was {
          var j :| j in m.Keys - todo && m[j] == s;
          assert j in m.Keys - (todo - {k});
        }
        if s == m[k] {
          assert k in m.Keys - (todo - {k});
        }
      }
      todo := todo - {k};
    }
    dict := SortCompact(texts);
    assert (set s | s in texts) == m.Values;
  }

  /** A table's keys in order. */
  method SortedKeys<V>(m: map<Text, V>) returns (keys: seq<Text>)
    ensures IsDict(keys, m.Keys)
  {
    var todo := m.Keys;
    var texts: seq<Text> := [];
    while todo != {}
      invariant todo <= m.Keys
      invariant forall s :: s in texts <==> s in m.Keys - todo
    {
      var k :| k in todo;
      texts := texts + [k];
      todo := todo - {k};
    }
    keys := SortCompact(texts);
    assert (set s | s in texts) == m.Keys;
  }

  // ---- Places ----

  /** Where a string stands in a dictionary. */
  ghost function Place(dict: seq<Text>, s: Text): (i: nat)
    requires s in dict
    ensures i < |dict| && dict[i] == s
  {
    var i :| 0 <= i < |dict| && dict[i] == s;
    i
  }

  lemma PlaceIs(dict: seq<Text>, i: nat)
    requires NoDuplicates(dict) && i < |dict|
    ensures Place(dict, dict[i]) == i
  {
    assert dict[Place(dict, dict[i])] == dict[i];
  }

  /** `buildStrIndex`. */
  method BuildStrIndex(strs: seq<Text>) returns (index: map<Text, nat>)
    requires NoDuplicates(strs)
    ensures forall s :: s in index <==> s in strs
    ensures forall s | s in strs :: index[s] == Place(strs, s)
  {
    index := map[];
    for i := 0 to |strs|
      invariant forall s :: s in index <==> s in strs[..i]
      invariant forall s | s in index :: s in strs && index[s] == Place(strs, s)
    {
      assert strs[..i + 1] == strs[..i] + [strs[i]];
      PlaceIs(strs, i);
      index := index[strs[i] := i];
    }
    assert strs[..|strs|] == strs;
  }

  /** `remapTable`: old numbers to places in the dictionary. */
  method RemapTable<K(==)>(mapping: map<K, Text>, dict: seq<Text>) returns (out: map<K, nat>)
    requires IsDict(dict, mapping.Values)
    ensures out.Keys == mapping.Keys
    ensures forall k | k in mapping :: out[k] < |dict| && dict[out[k]] == mapping[k]
  {
    DictDistinct(dict, mapping.Values);
    var index := BuildStrIndex(dict);
    out := map[];
    var todo := mapping.Keys;
    while todo != {}
      invariant todo <= mapping.Keys && out.Keys == mapping.Keys - todo
      invariant forall k | k in out :: out[k] < |dict| && dict[out[k]] == mapping[k]
    {
      var k :| k in todo;
      assert mapping[k] in mapping.Values;
      out := out[k := index[mapping[k]]];
      todo := todo - {k};
    }
  }
}
