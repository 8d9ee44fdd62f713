/** Wire sizes: what the splitters count is what the protobuf encoding takes. */
module Wire {
  import opened Wrappers
  import opened ByteStrings
  import opened Sorting
  import opened Varint
  import opened Entity

  // ---- Varints ----

  /** The number of bytes a varint takes. */
  method VarintSize(x: nat) returns (n: nat)
    ensures n == |PutUvarint(x)|
  {
    n := 1;
    var left: nat := x;
    while left >= 128
      invariant n + |PutUvarint(left)| == 1 + |PutUvarint(x)|
      decreases left
    {
      left := left / 128;
      n := n + 1;
    }
  }

  // ---- The encoding ----

  /** A field's number and wire type: 0 for a varint, 2 for bytes behind their
      length. */
  function Tag(field: nat, wireType: nat): Text {
    PutUvarint(8 * field + wireType)
  }

  function Delimited(field: nat, body: Text): Text {
    Tag(field, 2) + PutUvarint(|body|) + body
  }

  /** A scalar field, left out when it is zero. Negative numbers take ten bytes. */
  function VarintField(field: nat, x: int32): Text {
    if x == 0 then [] else Tag(field, 0) + PutUvarint(Uint64(x))
  }

  function BoolField(field: nat, b: bool): Text {
    if b then Tag(field, 0) + [1] else []
  }

  function TextField(field: nat, s: Text): Text {
    if s == [] then [] else Delimited(field, s)
  }

  function Packed(xs: seq<int32>): Text {
    if xs == [] then [] else Packed(xs[..|xs| - 1]) + PutUvarint(Uint64(xs[|xs| - 1]))
  }

  function PackedField(field: nat, xs: seq<int32>): Text {
    if xs == [] then [] else Delimited(field, Packed(xs))
  }

  /** An entry of a map from numbers to texts: a message of key and value, both
      always written. */
  function TextEntry(field: nat, k: int32, v: Text): Text {
    Delimited(field, Tag(1, 0) + PutUvarint(Uint64(k)) + Delimited(2, v))
  }

  function NumberEntry(field: nat, k: int32, v: int32): Text {
    Delimited(field, Tag(1, 0) + PutUvarint(Uint64(k)) + Tag(2, 0) + PutUvarint(Uint64(v)))
  }

  /** `order` lists the keys, each once. */
  ghost predicate Lists(order: seq<int32>, keys: set<int32>) {
    NoDuplicates(order) && forall k :: k in order <==> k in keys
  }

  function TextMap(field: nat, m: map<int32, Text>, order: seq<int32>): Text
    requires forall k | k in order :: k in m
  {
    if order == [] then []
    else
      var k := order[|order| - 1];
      TextMap(field, m, order[..|order| - 1]) + TextEntry(field, k, m[k])
  }

  function NumberMap(field: nat, m: map<int32, int32>, order: seq<int32>): Text
    requires forall k | k in order :: k in m
  {
    if order == [] then []
    else
      var k := order[|order| - 1];
      NumberMap(field, m, order[..|order| - 1]) + NumberEntry(field, k, m[k])
  }

  lemma SmallTag(field: nat, wireType: nat)
    requires field < 16 && wireType < 8
    ensures |Tag(field, wireType)| == 1
  {
  }

  // ---- Map entries ----

  /** The wire size of one map entry, its own length prefix included. */
  function EntryBytes(k: int32, v: Text): nat {
    var size := 1 + |PutUvarint(Uint64(k))| + 1 + |v| + |PutUvarint(|v|)|;
    size + 1 + |PutUvarint(size)|
  }

  /** It is what the entry takes in any field below 16. */
  lemma EntryIsMeasured(field: nat, k: int32, v: Text)
    requires field < 16
    ensures |TextEntry(field, k, v)| == EntryBytes(k, v)
  {
    SmallTag(field, 2);
    SmallTag(1, 0);
    SmallTag(2, 2);
    hide Tag, PutUvarint;
  }

  method MapEntryWireSize(k: int32, v: Text) returns (n: nat)
    ensures n == EntryBytes(k, v) && forall field: nat | field < 16 :: |TextEntry(field, k, v)| == n
  {
    hide TextEntry, PutUvarint;
    var keySize := VarintSize(Uint64(k));
    var lengthSize := VarintSize(|v|);
    var mapEntrySize := 1 + keySize + 1 + |v| + lengthSize;
    var prefix := VarintSize(mapEntrySize);
    n := mapEntrySize + 1 + prefix;
    forall field: nat | field < 16 ensures |TextEntry(field, k, v)| == n {
      EntryIsMeasured(field, k, v);
    }
  }

  // ---- Metadata messages ----

  /** An order for the entries of each map. */
  datatype Orders = Orders(
    targetNames: seq<int32>, ruleTypes: seq<int32>, tags: seq<int32>, attributeNames: seq<int32>,
    attributeValues: seq<int32>)

  ghost predicate ListsAll(o: Orders, m: Metadata) {
    && Lists(o.targetNames, m.targetNames.Keys) && Lists(o.ruleTypes, m.ruleTypes.Keys)
    && Lists(o.tags, m.tags.Keys) && Lists(o.attributeNames, m.attributeNames.Keys)
    && Lists(o.attributeValues, m.attributeValues.Keys)
  }

  ghost function MetadataWire(m: Metadata, o: Orders): Text
    requires ListsAll(o, m)
  {
    TextMap(1, m.targetNames, o.targetNames) + TextMap(2, m.ruleTypes, o.ruleTypes) + TextMap(3, m.tags, o.tags) +
    TextMap(4, m.attributeNames, o.attributeNames) + TextMap(5, m.attributeValues, o.attributeValues)
  }

  // ---- Targets ----

  ghost function TargetWire(t: OptimizedTarget, order: seq<int32>): Text
    requires Lists(order, t.attributes.Keys)
  {
    VarintField(1, t.id) + TextField(2, t.hash) + PackedField(3, t.deps) + PackedField(4, t.tags) +
    VarintField(5, t.ruleType) + BoolField(6, t.root) + BoolField(7, t.external) + NumberMap(8, t.attributes, order)
  }

  method PackedSize(xs: seq<int32>) returns (n: nat)
    ensures n == |Packed(xs)|
  {
    n := 0;
    for i := 0 to |xs|
      invariant n == |Packed(xs[..i])|
    {
      assert xs[..i + 1][..i] == xs[..i];
      var size := VarintSize(Uint64(xs[i]));
      n := n + size;
    }
    assert xs[..|xs|] == xs;
  }

  method PackedFieldSize(field: nat, xs: seq<int32>) returns (n: nat)
    requires field < 16
    ensures n == |PackedField(field, xs)|
  {
    if |xs| == 0 {
      return 0;
    }
    SmallTag(field, 2);
    hide Tag, Packed, PutUvarint;
    var dataSize := PackedSize(xs);
    var prefix := VarintSize(dataSize);
    n := 1 + prefix + dataSize;
  }

  method VarintFieldSize(field: nat, x: int32) returns (n: nat)
    requires field < 16
    ensures n == |VarintField(field, x)|
  {
    if x == 0 {
      return 0;
    }
    SmallTag(field, 0);
    hide Tag, PutUvarint;
    var size := VarintSize(Uint64(x));
    n := 1 + size;
  }

  lemma EntryTakes(field: nat, k: int32, v: int32)
    requires field < 16
    ensures var size := 1 + |PutUvarint(Uint64(k))| + 1 + |PutUvarint(Uint64(v))|;
      |NumberEntry(field, k, v)| == 1 + |PutUvarint(size)| + size
  {
    SmallTag(field, 2);
    SmallTag(1, 0);
    SmallTag(2, 0);
    hide Tag, PutUvarint;
  }

  /** What the entries of `keys` take, in any order. */
  function NumberBytes(m: map<int32, int32>, keys: seq<int32>): nat
    requires forall k | k in keys :: k in m
  {
    |NumberMap(8, m, keys)|
  }

  lemma {:induction false} NumbersWithout(m: map<int32, int32>, order: seq<int32>, k: int32) returns (rest: seq<int32>)
    requires (forall i | i in order :: i in m) && NoDuplicates(order) && k in order
    ensures NoDuplicates(rest) && forall i :: i in rest <==> i in order && i != k
    ensures |NumberMap(8, m, order)| == |NumberEntry(8, k, m[k])| + |NumberMap(8, m, rest)|
    decreases |order|
  {
    hide NumberEntry;
    var front, last := order[..|order| - 1], order[|order| - 1];
    assert order == front + [last];
    assert NoDuplicates(front) && last !in front;
    if last == k {
      rest := front;
    } else {
      var inner := NumbersWithout(m, front, k);
      rest := inner + [last];
      assert rest[..|inner|] == inner;
    }
  }

  /** The entries of a map take the same bytes in every order. */
  lemma {:induction false} NumbersInAnyOrder(m: map<int32, int32>, order: seq<int32>, other: seq<int32>)
    requires (forall i | i in order :: i in m) && NoDuplicates(order) && NoDuplicates(other)
    requires forall i :: i in order <==> i in other
    ensures |NumberMap(8, m, order)| == |NumberMap(8, m, other)|
    decreases |order|
  {
    hide NumberEntry;
    if order == [] {
      SameMembers(order, other);
      SameElements(order, other);
    } else {
      var front, k := order[..|order| - 1], order[|order| - 1];
      assert order == front + [k];
      var rest := NumbersWithout(m, other, k);
      NumbersInAnyOrder(m, front, rest);
    }
  }

  /** The loop over the attributes, in whatever order they come. */
  method AttributesSize(m: map<int32, int32>) returns (n: nat, ghost order: seq<int32>)
    ensures Lists(order, m.Keys) && n == |NumberMap(8, m, order)|
  {
    n, order := 0, [];
    var left := m.Keys;
    while left != {}
      invariant left <= m.Keys && NoDuplicates(order) && forall k :: k in order <==> k in m && k !in left
      invariant n == |NumberMap(8, m, order)|
      decreases left
    {
      var k :| k in left;
      EntryTakes(8, k, m[k]);
      assert (order + [k])[..|order|] == order;
      hide NumberEntry, PutUvarint;
      var keySize := VarintSize(Uint64(k));
      var valueSize := VarintSize(Uint64(m[k]));
      var entrySize := 1 + keySize + 1 + valueSize;
      var prefix := VarintSize(entrySize);
      n := n + 1 + prefix + entrySize;
      order := order + [k];
      left := left - {k};
    }
  }

  lemma TargetTakes(t: OptimizedTarget, order: seq<int32>, other: seq<int32>)
    requires Lists(order, t.attributes.Keys) && Lists(other, t.attributes.Keys)
    ensures |TargetWire(t, other)| ==
            |VarintField(1, t.id)| + |TextField(2, t.hash)| + |PackedField(3, t.deps)| + |PackedField(4, t.tags)| +
            |VarintField(5, t.ruleType)| + |BoolField(6, t.root)| + |BoolField(7, t.external)| +
            |NumberMap(8, t.attributes, order)|
  {
    NumbersInAnyOrder(t.attributes, other, order);
    hide VarintField, TextField, PackedField, BoolField, NumberMap;
  }

  /** `OptimizedTarget.Size`: the length of the target's encoding, whatever the
      order of its attributes. */
  method TargetSize(t: OptimizedTarget) returns (n: nat)
    ensures forall order | Lists(order, t.attributes.Keys) :: n == |TargetWire(t, order)|
  {
    SmallTag(2, 2);
    SmallTag(6, 0);
    SmallTag(7, 0);
    hide Tag, Packed, PackedField, VarintField, NumberMap, TargetWire, Lists, PutUvarint;
    n := VarintFieldSize(1, t.id);
    if |t.hash| > 0 {
      var prefix := VarintSize(|t.hash|);
      n := n + 1 + prefix + |t.hash|;
    }
    var deps := PackedFieldSize(3, t.deps);
    var ruleType := VarintFieldSize(5, t.ruleType);
    var tags := PackedFieldSize(4, t.tags);
    n := n + deps + ruleType + tags;
    if t.root {
      n := n + 1 + 1;
    }
    if t.external {
      n := n + 1 + 1;
    }
    ghost var order;
    var attributes;
    attributes, order := AttributesSize(t.attributes);
    n := n + attributes;
    forall other | Lists(other, t.attributes.Keys) ensures n == |TargetWire(t, other)| {
      TargetTakes(t, order, other);
    }
  }

  // ---- Changed targets ----

  /** A target that differs between two revisions, as it is sent. */
  datatype Sent = Sent(changeType: int32, before: Option<OptimizedTarget>, after: Option<OptimizedTarget>,
                       distance: int32)

  ghost predicate ListsBoth(order: seq<int32>, other: seq<int32>, c: Sent) {
    && (c.before.Some? ==> Lists(order, c.before.value.attributes.Keys))
    && (c.after.Some? ==> Lists(other, c.after.value.attributes.Keys))
  }

  ghost function SentWire(c: Sent, order: seq<int32>, other: seq<int32>): Text
    requires ListsBoth(order, other, c)
  {
    VarintField(1, c.changeType) +
    (if c.before.Some? then Delimited(2, TargetWire(c.before.value, order)) else []) +
    (if c.after.Some? then Delimited(3, TargetWire(c.after.value, other)) else []) +
    VarintField(4, c.distance)
  }

  method InnerSize(field: nat, t: OptimizedTarget) returns (n: nat)
    requires field < 16
    ensures forall order | Lists(order, t.attributes.Keys) :: n == |Delimited(field, TargetWire(t, order))|
  {
    SmallTag(field, 2);
    hide Tag, TargetWire, Lists, PutUvarint;
    var inner := TargetSize(t);
    var prefix := VarintSize(inner);
    n := 1 + prefix + inner;
  }

  /** `ChangedTarget.Size`, likewise. */
  method SentSize(c: Sent) returns (n: nat)
    ensures forall order, other | ListsBoth(order, other, c) :: n == |SentWire(c, order, other)|
  {
    hide VarintField, Delimited, TargetWire, Lists;
    n := VarintFieldSize(1, c.changeType);
    if c.before.Some? {
      var size := InnerSize(2, c.before.value);
      n := n + size;
    }
    if c.after.Some? {
      var size := InnerSize(3, c.after.value);
      n := n + size;
    }
    var distance := VarintFieldSize(4, c.distance);
    n := n + distance;
  }
}
