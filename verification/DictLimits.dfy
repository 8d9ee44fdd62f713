/** A dictionary that is written but cannot be read back. */
module DictLimits {
  import opened Wrappers
  import opened ByteStrings
  import opened Varint
  import opened Dict

  /** `stem` followed by each byte from `b` on. */
  function Family(stem: Text, b: nat): (strs: seq<Text>)
    ensures b <= 256 ==> |strs| == 256 - b && forall k | 0 <= k < |strs| :: strs[k] == stem + [b + k]
    decreases 256 - b
  {
    if b >= 256 then [] else [stem + [b]] + Family(stem, b + 1)
  }

  lemma {:induction false} StemIsShared(stem: Text, x: byte, y: byte)
    requires x != y
    ensures CommonPrefixLen(stem + [x], stem + [y]) == |stem|
  {
    if stem != [] {
      assert (stem + [x])[1..] == stem[1..] + [x] && (stem + [y])[1..] == stem[1..] + [y];
      StemIsShared(stem[1..], x, y);
    }
  }

  lemma {:induction false} FamilyTotal(stem: Text, b: nat)
    requires b <= 256
    ensures TotalBytes(Family(stem, b)) == (256 - b) * (|stem| + 1)
    decreases 256 - b
  {
    if b < 256 {
      FamilyTotal(stem, b + 1);
      assert Family(stem, b)[1..] == Family(stem, b + 1);
    }
  }

  lemma FamilyEntry(stem: Text, b: nat)
    requires 0 < b < 256
    ensures |EntryBytes(b, stem + [b - 1], stem + [b])| == |PutUvarint(|stem|)| + 2
  {
    hide PutUvarint, CommonPrefixLen;
    StemIsShared(stem, b - 1, b);
    ShortUvarint();
  }

  /** After the first, every entry of the family takes a few bytes. */
  lemma {:induction false} FamilyEncoded(stem: Text, b: nat)
    requires 0 < b <= 256
    ensures |Entries(Family(stem, b), b, stem + [b - 1])| == (256 - b) * (|PutUvarint(|stem|)| + 2)
    decreases 256 - b
  {
    hide PutUvarint, EntryBytes;
    if b < 256 {
      FamilyEntry(stem, b);
      FamilyEncoded(stem, b + 1);
      assert Family(stem, b)[1..] == Family(stem, b + 1) && Family(stem, b)[0] == stem + [b];
      OneMoreEntry(Family(stem, b), b, stem + [b - 1]);
    }
  }

  lemma OneMoreEntry(strs: seq<Text>, i: nat, prev: Text)
    requires strs != []
    ensures |Entries(strs, i, prev)| == |EntryBytes(i, prev, strs[0])| + |Entries(strs[1..], i + 1, strs[0])|
  {
    hide EntryBytes;
  }

  lemma ShortUvarint()
    ensures |PutUvarint(0)| == |PutUvarint(1)| == 1 && |PutUvarint(0x8000)| == |PutUvarint(0x8001)| == 3
  {
  }

  lemma {:induction false} LaterTailIsLess(stem: Text, x: byte, y: byte)
    requires x < y
    ensures Less(stem + [x], stem + [y])
  {
    if stem != [] {
      assert (stem + [x])[1..] == stem[1..] + [x] && (stem + [y])[1..] == stem[1..] + [y];
      LaterTailIsLess(stem[1..], x, y);
    }
  }

  lemma FamilyAscends(stem: Text, i: nat, j: nat)
    requires i < j < 256
    ensures Less(Family(stem, 0)[i], Family(stem, 0)[j])
  {
    LaterTailIsLess(stem, i, j);
  }

  lemma FamilyEncodedWhole(stem: Text)
    requires |stem| == 0x8000
    ensures |Entries(Family(stem, 0), 0, [])| <= 34048
  {
    hide Entries, EntryBytes;
    var strs := Family(stem, 0);
    FamilyEncoded(stem, 1);
    ShortUvarint();
    assert strs[1..] == Family(stem, 1);
    FirstEntry(strs);
  }

  const STEM_LENGTH := 0x8000

  /** Strings in order, each once, that share a stem of 32768 bytes: written in
      about 34000 bytes, they take 8 million and are refused when read. */
  lemma SharedStemIsRefused(strs: seq<Text>)
    requires strs == Family(Zeros(STEM_LENGTH), 0)
    ensures forall i, j | 0 <= i < j < |strs| :: Less(strs[i], strs[j])
    ensures TotalBytes(strs) > Budget(|Entries(strs, 0, [])|)
    ensures ExpandDict(FrontCoded(strs)) == None
  {
    var stem := Zeros(STEM_LENGTH);
    hide Zeros, Entries, TotalBytes, Less, FrontCoded, ExpandDict;
    FamilyTotal(stem, 0);
    FamilyEncodedWhole(stem);
    DictRoundTrip(strs);
    forall i, j | 0 <= i < j < |strs| ensures Less(strs[i], strs[j]) {
      FamilyAscends(stem, i, j);
    }
  }

  lemma FirstEntry(strs: seq<Text>)
    requires strs != []
    ensures |Entries(strs, 0, [])| ==
            |PutUvarint(0)| + |PutUvarint(|strs[0]|)| + |strs[0]| + |Entries(strs[1..], 1, strs[0])|
  {
  }
}
