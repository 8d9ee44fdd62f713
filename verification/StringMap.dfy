/** The file-hash sidecar: a table of strings, length-prefixed, keys in order. */
module StringMap {
  import opened Wrappers
  import opened ByteStrings
  import opened Varint
  import opened Framing
  import opened NameOrder
  import opened Interning

  function PairBytes(k: Text, v: Text): Text {
    Framed(k) + Framed(v)
  }

  function Pairs(keys: seq<Text>, m: map<Text, Text>): Text
    requires forall k | k in keys :: k in m
  {
    if keys == [] then [] else
      var n := |keys| - 1;
      assert keys[n] in keys;
      Pairs(keys[..n], m) + PairBytes(keys[n], m[keys[n]])
  }

  ghost function MapBytes(m: map<Text, Text>): Text {
    var keys := Ordered(Self, m.Keys);
    PutUvarint(|m|) + if forall k | k in keys :: k in m then Pairs(keys, m) else []
  }

  lemma OnePairMore(buf: Text, keys: seq<Text>, i: nat, m: map<Text, Text>)
    requires i < |keys| && forall k | k in keys :: k in m
    ensures forall j, k | j == i + 1 && k in keys[..j] :: k in m
    ensures keys[i] in m && (forall k | k in keys[..i] :: k in m)
    ensures var k := keys[i]; var v := m[k];
      buf + Pairs(keys[..i], m) + PutUvarint(|k|) + k + PutUvarint(|v|) + v == buf + Pairs(keys[..i + 1], m)
  {
    hide PutUvarint;
    var front := keys[..i + 1];
    assert keys[i] in keys && front[..i] == keys[..i] && front[i] == keys[i];
    SplitPair(buf + Pairs(keys[..i], m), keys[i], m[keys[i]]);
  }

  /** `encodeStringMap`. */
  method EncodeStringMap(m: map<Text, Text>) returns (buf: Text)
    ensures buf == MapBytes(m)
  {
    hide PutUvarint, Pairs;
    var keys := SortedKeys(m);
    OrderedIs(Self, m.Keys, keys);
    buf := PutUvarint(|m|);
    assert forall k | k in keys :: k in m;
    NoPairs(PutUvarint(|m|), keys, m);
    for i := 0 to |keys|
      invariant buf == PutUvarint(|m|) + Pairs(keys[..i], m)
    {
      OnePairMore(PutUvarint(|m|), keys, i, m);
      buf := buf + PutUvarint(|keys[i]|) + keys[i];
      buf := buf + PutUvarint(|m[keys[i]]|) + m[keys[i]];
    }
    assert keys[..|keys|] == keys;
  }

  lemma NoPairs(buf: Text, keys: seq<Text>, m: map<Text, Text>)
    ensures Pairs(keys[..0], m) == [] && buf + Pairs(keys[..0], m) == buf
  {
  }

  lemma SplitPair(buf: Text, k: Text, v: Text)
    ensures buf + PutUvarint(|k|) + k + PutUvarint(|v|) + v == buf + PairBytes(k, v)
  {
  }

  /** One length-prefixed string. */
  function ReadText(data: Text): (r: Option<Parsed<Text>>)
    ensures r.Some? ==> 0 < r.value.size <= |data|
  {
    match ReadUvarint(data)
    case None => None
    case Some(p) => if |data| - p.size < p.value then None
                    else Some(Parsed(data[p.size..p.size + p.value], p.size + p.value))
  }

  /** `n` more pairs, added to `m`. */
  function ReadPairs(data: Text, n: nat, m: map<Text, Text>): Option<map<Text, Text>>
    decreases n
  {
    if n == 0 then Some(m)
    else
      match ReadText(data)
      case None => None
      case Some(k) =>
        match ReadText(data[k.size..])
        case None => None
        case Some(v) => ReadPairs(data[k.size..][v.size..], n - 1, m[k.value := v.value])
  }

  function MapOf(data: Text): Option<map<Text, Text>> {
    match ReadUvarint(data)
    case None => None
    case Some(n) => ReadPairs(data[n.size..], n.value, map[])
  }

  /** `decodeStringMap`. */
  method DecodeStringMap(data: Text) returns (r: Option<map<Text, Text>>)
    ensures r == MapOf(data)
  {
    hide ReadUvarint, ReadText;
    var count := ReadUvarint(data);
    if count.None? {
      return None;
    }
    var rest := data[count.value.size..];
    var m: map<Text, Text> := map[];
    var i := 0;
    while i < count.value.value
      invariant 0 <= i <= count.value.value
      invariant MapOf(data) == ReadPairs(rest, count.value.value - i, m)
    {
      var k := ReadText(rest);
      if k.None? {
        return None;
      }
      rest := rest[k.value.size..];
      var v := ReadText(rest);
      if v.None? {
        return None;
      }
      m := m[k.value.value := v.value.value];
      rest := rest[v.value.size..];
      i := i + 1;
    }
    r := Some(m);
  }

  lemma TextRoundTrip(s: Text, rest: Text)
    requires |s| < TWO_64
    ensures ReadText(Framed(s) + rest) == Some(Parsed(s, |Framed(s)|)) && (Framed(s) + rest)[|Framed(s)|..] == rest
  {
    hide PutUvarint, ReadUvarint;
    UvarintThen(|s|, s + rest);
    assert Framed(s) + rest == PutUvarint(|s|) + (s + rest);
  }

  lemma PairRoundTrip(k: Text, v: Text, rest: Text, n: nat, m: map<Text, Text>)
    requires |k| < TWO_64 && |v| < TWO_64
    ensures ReadPairs(PairBytes(k, v) + rest, n + 1, m) == ReadPairs(rest, n, m[k := v])
  {
    hide Framed, ReadText;
    assert PairBytes(k, v) + rest == Framed(k) + (Framed(v) + rest);
    TextRoundTrip(k, Framed(v) + rest);
    TextRoundTrip(v, rest);
  }

  /** The first `i` pairs, read from `rest` pairs on. */
  lemma {:induction false} PairsRoundTrip(keys: seq<Text>, m: map<Text, Text>, rest: Text, n: nat, got: map<Text, Text>)
    requires forall k | k in keys :: k in m && |k| < TWO_64 && |m[k]| < TWO_64
    ensures ReadPairs(Pairs(keys, m) + rest, |keys| + n, got) == ReadPairs(rest, n, Added(got, keys, m))
    decreases |keys|
  {
    hide PairBytes, ReadPairs;
    if keys == [] {
      assert [] + rest == rest;
    } else {
      var i := |keys| - 1;
      assert keys[i] in keys;
      var pair := PairBytes(keys[i], m[keys[i]]);
      assert Pairs(keys, m) + rest == Pairs(keys[..i], m) + (pair + rest);
      PairsRoundTrip(keys[..i], m, pair + rest, n + 1, got);
      PairRoundTrip(keys[i], m[keys[i]], rest, n, Added(got, keys[..i], m));
    }
  }

  function Added(got: map<Text, Text>, keys: seq<Text>, m: map<Text, Text>): map<Text, Text>
    requires forall k | k in keys :: k in m
  {
    if keys == [] then got else
      var n := |keys| - 1;
      assert keys[n] in keys;
      Added(got, keys[..n], m)[keys[n] := m[keys[n]]]
  }

  lemma {:induction false} AddedIs(keys: seq<Text>, m: map<Text, Text>)
    requires forall k | k in keys :: k in m
    ensures Added(map[], keys, m) == map k | k in keys :: m[k]
  {
    if keys != [] {
      var n := |keys| - 1;
      assert keys[n] in keys;
      AddedIs(keys[..n], m);
      assert keys == keys[..n] + [keys[n]];
    }
  }

  lemma {:induction false} DictSize(dict: seq<Text>, texts: set<Text>)
    requires IsDict(dict, texts)
    ensures |dict| == |texts|
    decreases |dict|
  {
    NothingToOrder(Self, texts, dict);
    if dict != [] {
      TailInOrder(Self, texts, dict);
      assert dict[0] in dict;
      DictSize(dict[1..], texts - {dict[0]});
    }
  }

  lemma KeysInOrder(m: map<Text, Text>) returns (keys: seq<Text>)
    ensures IsDict(keys, m.Keys) && |keys| == |m| && (forall k | k in keys :: k in m)
    ensures MapBytes(m) == PutUvarint(|m|) + Pairs(keys, m)
  {
    hide PutUvarint, Pairs;
    keys := Ordered(Self, m.Keys);
    assert DistinctNames(Self, m.Keys);
    OrderExists(Self, m.Keys);
    DictSize(keys, m.Keys);
    assert |m| == |m.Keys|;
  }

  /** The table that was written is the table that is read. */
  lemma MapRoundTrip(m: map<Text, Text>)
    requires |m| < TWO_64 && forall k | k in m :: |k| < TWO_64 && |m[k]| < TWO_64
    ensures MapOf(MapBytes(m)) == Some(m)
  {
    hide PutUvarint, ReadUvarint, Pairs, ReadPairs, MapBytes;
    var keys := KeysInOrder(m);
    var pairs := Pairs(keys, m);
    UvarintThen(|m|, pairs);
    assert pairs + [] == pairs;
    PairsRoundTrip(keys, m, [], 0, map[]);
    NoMorePairs(Added(map[], keys, m));
    AddedIs(keys, m);
    assert Added(map[], keys, m) == m;
  }

  lemma NoMorePairs(m: map<Text, Text>)
    ensures ReadPairs([], 0, m) == Some(m)
  {
  }
}
