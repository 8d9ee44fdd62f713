/** The canonical bytes a rule is hashed by, and exactly which rules share
    them. */
module RuleEncoding {
  import opened Wrappers
  import opened ByteStrings
  import opened Sorting
  import opened TextSort
  import opened Varint
  import opened Framing

  datatype Pair = Pair(key: Option<Text>, value: Option<Text>)

  datatype KeyedList = KeyedList(key: Option<Text>, values: seq<Text>)

  datatype Fileset = Fileset(
    source: Option<Text>, destination: Option<Text>, filesPresent: Option<bool>, files: seq<Text>, exclude: seq<Text>,
    symlinkBehavior: Option<int32>, stripPrefix: Option<Text>)

  datatype Attribute = Attribute(
    name: Option<Text>, location: Option<Text>, explicitlySpecified: Option<bool>, nodep: Option<bool>,
    kind: Option<int32>,
    intValue: Option<int32>, stringValue: Option<Text>, booleanValue: Option<bool>, tristateValue: Option<int32>,
    stringList: seq<Text>, stringDict: seq<Option<Pair>>, filesets: seq<Option<Fileset>>,
    labelListDict: seq<Option<KeyedList>>, stringListDict: seq<Option<KeyedList>>, intList: seq<int32>,
    labelDictUnary: seq<Option<Pair>>, labelKeyedStringDict: seq<Option<Pair>>)

  datatype BazelRule = BazelRule(
    name: Option<Text>, ruleClass: Option<Text>, location: Option<Text>, attributes: seq<Option<Attribute>>,
    ruleInput: seq<Text>, ruleOutput: seq<Text>, defaultSetting: seq<Text>, environmentHash: Option<Text>)

  // ---- Encoding ----

  function Present<T>(xs: seq<Option<T>>): seq<T> {
    if xs == [] then [] else (if xs[0].Some? then [xs[0].value] else []) + Present(xs[1..])
  }

  function EncodeInt32(v: int): Text
    requires -TWO_31 <= v < TWO_31
  {
    var u := v % TWO_32;
    [u / 0x100_0000, u / 0x1_0000 % 256, u / 256 % 256, u % 256]
  }

  function EncodeBool(b: bool): Text {
    if b then [1] else [0]
  }

  function StringField(name: string, value: Option<Text>): Field {
    Field(Ascii(name), STRING, value)
  }

  function BoolField(name: string, value: Option<bool>): Field {
    Field(Ascii(name), BOOL, if value.Some? then Some(EncodeBool(value.value)) else None)
  }

  function Int32Field(name: string, value: Option<int32>): Field {
    Field(Ascii(name), INT32, if value.Some? then Some(EncodeInt32(value.value)) else None)
  }

  function EnumField(name: string, value: Option<int32>): Field {
    Field(Ascii(name), ENUM, if value.Some? then Some(EncodeInt32(value.value)) else None)
  }

  function ListField(name: string, kind: byte, elements: seq<Text>): Field {
    Field(Ascii(name), LIST, Some(EncodeList(kind, elements)))
  }

  function SortedStrings(name: string, values: seq<Text>): Field {
    ListField(name, STRING, SortTexts(values))
  }

  function SortInt32s(values: seq<int32>): (sorted: seq<int32>)
    ensures multiset(sorted) == multiset(values)
  {
    Sort((a: int32, b: int32) => a <= b, values)
  }

  function SortedInt32s(name: string, values: seq<int32>): Field {
    ListField(name, INT32, Map((v: int32) => EncodeInt32(v), SortInt32s(values)))
  }

  function SortedMessages<T>(name: string, values: seq<Option<T>>, encode: T -> Text): Field {
    ListField(name, MESSAGE, SortTexts(Map(encode, Present(values))))
  }

  function EncodePair(typeName: string, p: Pair): Text {
    Message(Ascii(typeName), [StringField("key", p.key), StringField("value", p.value)])
  }

  function EncodeKeyedList(typeName: string, k: KeyedList): Text {
    Message(Ascii(typeName), [StringField("key", k.key), SortedStrings("value", k.values)])
  }

  function FilesetFields(f: Fileset): seq<Field> {
    [ StringField("source", f.source),
      StringField("destination_directory", f.destination),
      BoolField("files_present", f.filesPresent),
      SortedStrings("file", f.files),
      SortedStrings("exclude", f.exclude),
      EnumField("symlink_behavior", f.symlinkBehavior),
      StringField("strip_prefix", f.stripPrefix)]
  }

  function EncodeFileset(f: Fileset): Text {
    Message(Ascii("FilesetEntry"), FilesetFields(f))
  }

  function ScalarFields(a: Attribute): (fields: seq<Field>)
    ensures |fields| == 8
  {
    [ StringField("name", a.name),
      BoolField("explicitly_specified", a.explicitlySpecified),
      BoolField("nodep", a.nodep),
      EnumField("type", a.kind),
      Int32Field("int_value", a.intValue),
      StringField("string_value", a.stringValue),
      BoolField("boolean_value", a.booleanValue),
      EnumField("tristate_value", a.tristateValue)]
  }

  function CollectionFields(a: Attribute): (fields: seq<Field>)
    ensures |fields| == 8
  {
    [ SortedStrings("string_list_value", a.stringList),
      SortedMessages("string_dict_value", a.stringDict, p => EncodePair("StringDictEntry", p)),
      SortedMessages("fileset_list_value", a.filesets, EncodeFileset),
      SortedMessages("label_list_dict_value", a.labelListDict, k => EncodeKeyedList("LabelListDictEntry", k)),
      SortedMessages("string_list_dict_value", a.stringListDict, k => EncodeKeyedList("StringListDictEntry", k)),
      SortedInt32s("int_list_value", a.intList),
      SortedMessages("label_dict_unary_value", a.labelDictUnary, p => EncodePair("LabelDictUnaryEntry", p)),
      SortedMessages("label_keyed_string_dict_value", a.labelKeyedStringDict,
                     p => EncodePair("LabelKeyedStringDictEntry", p))]
  }

  function AttributeFields(a: Attribute): seq<Field> {
    ScalarFields(a) + CollectionFields(a)
  }

  function EncodeAttribute(a: Attribute): Text {
    Message(Ascii("Attribute"), AttributeFields(a))
  }

  /** `attribute.GetName()`. */
  function NameOf(a: Attribute): Text {
    if a.name.Some? then a.name.value else []
  }

  function Relevant(attributes: seq<Option<Attribute>>): seq<Attribute> {
    Keep(Present(attributes))
  }

  /** Without the attribute that records a macro's call site. */
  function Keep(attributes: seq<Attribute>): seq<Attribute> {
    if attributes == [] then []
    else (if NameOf(attributes[0]) == Ascii("generator_location") then [] else [attributes[0]]) + Keep(attributes[1..])
  }

  function SortAttributes(attributes: seq<Attribute>): (sorted: seq<Attribute>)
    ensures multiset(sorted) == multiset(attributes)
  {
    Sort((a: Attribute, b: Attribute) => LessEq(NameOf(a), NameOf(b)), attributes)
  }

  function RuleFields(r: BazelRule): seq<Field> {
    [ StringField("name", r.name),
      StringField("rule_class", r.ruleClass),
      ListField("attribute", MESSAGE, Map(EncodeAttribute, SortAttributes(Relevant(r.attributes)))),
      SortedStrings("rule_input", r.ruleInput),
      SortedStrings("rule_output", r.ruleOutput),
      SortedStrings("default_setting", r.defaultSetting),
      StringField("skylark_environment_hash_code", r.environmentHash)]
  }

  function EncodeRule(r: BazelRule): Text {
    Message(Ascii("Rule"), RuleFields(r))
  }

  /** The bytes HashRuleCommon feeds the hash, a missing rule included. */
  function RuleBytes(r: Option<BazelRule>): Text {
    EncodeField(Field(Ascii("rule"), MESSAGE, if r.Some? then Some(EncodeRule(r.value)) else None))
  }

  // ---- What the encoding keeps ----

  datatype KeyedListContent = KeyedListContent(key: Option<Text>, values: multiset<Text>)

  datatype FilesetContent = FilesetContent(
    source: Option<Text>, destination: Option<Text>, filesPresent: Option<bool>, files: multiset<Text>,
    exclude: multiset<Text>,
    symlinkBehavior: Option<int32>, stripPrefix: Option<Text>)

  datatype AttributeContent = AttributeContent(
    name: Option<Text>, explicitlySpecified: Option<bool>, nodep: Option<bool>, kind: Option<int32>,
    intValue: Option<int32>, stringValue: Option<Text>, booleanValue: Option<bool>, tristateValue: Option<int32>,
    stringList: multiset<Text>, stringDict: multiset<Option<Pair>>, filesets: multiset<Option<FilesetContent>>,
    labelListDict: multiset<Option<KeyedListContent>>, stringListDict: multiset<Option<KeyedListContent>>,
    intList: multiset<int32>, labelDictUnary: multiset<Option<Pair>>, labelKeyedStringDict: multiset<Option<Pair>>)

  datatype RuleContent = RuleContent(
    name: Option<Text>, ruleClass: Option<Text>, attributes: multiset<Option<AttributeContent>>,
    ruleInput: multiset<Text>, ruleOutput: multiset<Text>, defaultSetting: multiset<Text>,
    environmentHash: Option<Text>)

  function KeyedListOf(k: KeyedList): KeyedListContent {
    KeyedListContent(k.key, multiset(k.values))
  }

  function FilesetOf(f: Fileset): FilesetContent {
    FilesetContent(f.source, f.destination, f.filesPresent, multiset(f.files), multiset(f.exclude), f.symlinkBehavior,
                   f.stripPrefix)
  }

  /** What `content` says of the entries of a list, up to their order and
      without the absent ones. */
  function Entries<T, U(==)>(content: T -> U, xs: seq<Option<T>>): multiset<Option<U>> {
    multiset(Map((x: Option<T>) => if x.Some? then Some(content(x.value)) else None, xs))[None := 0]
  }

  function Itself<T>(): T -> T {
    x => x
  }

  /** An attribute up to the order of its lists, without absent entries and
      locations. */
  function AttributeOf(a: Attribute): AttributeContent {
    AttributeContent(
      a.name, a.explicitlySpecified, a.nodep, a.kind, a.intValue, a.stringValue, a.booleanValue, a.tristateValue,
      multiset(a.stringList), Entries(Itself(), a.stringDict), Entries(FilesetOf, a.filesets),
      Entries(KeyedListOf, a.labelListDict), Entries(KeyedListOf, a.stringListDict), multiset(a.intList),
      Entries(Itself(), a.labelDictUnary), Entries(Itself(), a.labelKeyedStringDict))
  }

  /** The content of an attribute that is there and does not record a macro's
      call site. */
  function ContentFor(a: Option<Attribute>): Option<AttributeContent> {
    if a.Some? && a.value.name != Some(Ascii("generator_location")) then Some(AttributeOf(a.value)) else None
  }

  /** A rule up to the order of its lists and attributes, without the excluded
      fields. */
  function RuleOf(r: BazelRule): RuleContent {
    RuleContent(
      r.name, r.ruleClass, multiset(Map(ContentFor, r.attributes))[None := 0],
      multiset(r.ruleInput), multiset(r.ruleOutput), multiset(r.defaultSetting), r.environmentHash)
  }

  /** Bazel gives every attribute of a rule its own name; a missing name is the
      empty one. */
  predicate DistinctlyNamed(attributes: seq<Option<Attribute>>) {
    forall i, j | 0 <= i < j < |attributes| && attributes[i].Some? && attributes[j].Some? ::
        var a, b := attributes[i].value.name, attributes[j].value.name;
        (if a.Some? then a.value else []) != (if b.Some? then b.value else [])
  }

  predicate UniqueNames(attributes: seq<Attribute>) {
    forall i, j | 0 <= i < j < |attributes| :: NameOf(attributes[i]) != NameOf(attributes[j])
  }

  // ---- Scalars ----

  lemma Int32Injective(v: int, w: int)
    requires -TWO_31 <= v < TWO_31 && -TWO_31 <= w < TWO_31
    ensures EncodeInt32(v) == EncodeInt32(w) <==> v == w
  {
    if EncodeInt32(v) == EncodeInt32(w) {
      Int32Decodes(v);
      Int32Decodes(w);
    }
  }

  lemma Int32Decodes(v: int)
    requires -TWO_31 <= v < TWO_31
    ensures var b := EncodeInt32(v);
      Int32(b[0] as int * 0x100_0000 + b[1] as int * 0x1_0000 + b[2] as int * 256 + b[3] as int) == v
  {
    var u := v % TWO_32;
    assert u == u / 256 * 256 + u % 256;
    assert u / 256 == u / 0x1_0000 * 256 + u / 256 % 256;
    assert u / 0x1_0000 == u / 0x100_0000 * 256 + u / 0x1_0000 % 256;
  }

  lemma OptionFieldInjective(name: string, v: Option<int32>, w: Option<int32>)
    ensures Int32Field(name, v) == Int32Field(name, w) <==> v == w
    ensures EnumField(name, v) == EnumField(name, w) <==> v == w
  {
    if v.Some? && w.Some? {
      Int32Injective(v.value, w.value);
    }
  }

  lemma BoolFieldInjective(name: string, v: Option<bool>, w: Option<bool>)
    ensures BoolField(name, v) == BoolField(name, w) <==> v == w
  {
    if v.Some? && w.Some? {
      assert EncodeBool(v.value)[0] == EncodeBool(w.value)[0] <==> v == w;
    }
  }

  // ---- Lists ----

  lemma ListFieldInjective(name: string, kind: byte, xs: seq<Text>, ys: seq<Text>)
    ensures ListField(name, kind, xs) == ListField(name, kind, ys) <==> xs == ys
  {
    if ListField(name, kind, xs) == ListField(name, kind, ys) {
      ListInjective(kind, xs, kind, ys);
    }
  }

  lemma SortedStringsInjective(name: string, xs: seq<Text>, ys: seq<Text>)
    ensures SortedStrings(name, xs) == SortedStrings(name, ys) <==> multiset(xs) == multiset(ys)
  {
    ListFieldInjective(name, STRING, SortTexts(xs), SortTexts(ys));
    SortForgetsOrder(xs, ys);
  }

  lemma MapInjective<X, Y>(f: X -> Y, xs: seq<X>, ys: seq<X>)
    requires forall x, y | x in xs && y in ys && f(x) == f(y) :: x == y
    ensures Map(f, xs) == Map(f, ys) <==> xs == ys
  {
    if Map(f, xs) == Map(f, ys) {
      forall i | 0 <= i < |xs| ensures xs[i] == ys[i] {
        assert Map(f, xs)[i] == Map(f, ys)[i];
      }
    }
  }

  lemma SortedInt32sInjective(name: string, xs: seq<int32>, ys: seq<int32>)
    ensures SortedInt32s(name, xs) == SortedInt32s(name, ys) <==> multiset(xs) == multiset(ys)
  {
    var f := (v: int32) => EncodeInt32(v);
    var leq := (a: int32, b: int32) => a <= b;
    var s, t := SortInt32s(xs), SortInt32s(ys);
    ListFieldInjective(name, INT32, Map(f, s), Map(f, t));
    forall x, y | x in s && y in t && f(x) == f(y) ensures x == y {
      Int32Injective(x, y);
    }
    MapInjective(f, s, t);
    SortSorted(leq, xs);
    SortSorted(leq, ys);
    if multiset(xs) == multiset(ys) {
      SortedUnique(leq, s, t);
    }
  }

  lemma MapParts<X, Y>(f: X -> Y, xs: seq<X>, k: nat)
    requires k < |xs|
    ensures multiset(Map(f, xs)) == multiset(Map(f, xs[..k] + xs[k + 1..])) + multiset{f(xs[k])}
  {
    assert Map(f, xs) == Map(f, xs[..k]) + [f(xs[k])] + Map(f, xs[k + 1..]);
    assert Map(f, xs[..k] + xs[k + 1..]) == Map(f, xs[..k]) + Map(f, xs[k + 1..]);
  }

  lemma FindImage<X, Y>(g: X -> Y, xs: seq<X>, ys: seq<X>) returns (k: nat)
    requires multiset(Map(g, xs)) == multiset(Map(g, ys)) && xs != []
    ensures k < |ys| && g(ys[k]) == g(xs[0])
  {
    var first := Map(g, xs)[0];
    assert first in multiset(Map(g, xs));
    assert first in Map(g, ys);
    k :| 0 <= k < |ys| && Map(g, ys)[k] == first;
  }

  lemma SameLength<X, Y>(g: X -> Y, xs: seq<X>, ys: seq<X>)
    requires multiset(Map(g, xs)) == multiset(Map(g, ys))
    ensures |xs| == |ys|
  {
    assert |multiset(Map(g, xs))| == |xs|;
  }

  /** Where `f` tells apart no more than `g` does, equal images under `g` have
      equal images under `f`. */
  lemma {:induction false} SameImages<X, Y, Z>(f: X -> Y, g: X -> Z, xs: seq<X>, ys: seq<X>)
    requires multiset(Map(g, xs)) == multiset(Map(g, ys))
    requires forall x, y | x in xs && y in ys && g(x) == g(y) :: f(x) == f(y)
    ensures multiset(Map(f, xs)) == multiset(Map(f, ys))
    decreases |xs|
  {
    hide Map;
    SameLength(g, xs, ys);
    if xs != [] {
      var k := FindImage(g, xs, ys);
      assert xs[0] in xs && ys[k] in ys;
      MapParts(g, xs, 0);
      MapParts(g, ys, k);
      MapParts(f, xs, 0);
      MapParts(f, ys, k);
      var xs', ys' := xs[..0] + xs[1..], ys[..k] + ys[k + 1..];
      assert multiset(Map(g, xs')) == multiset(Map(g, xs)) - multiset{g(xs[0])};
      assert multiset(Map(g, ys')) == multiset(Map(g, ys)) - multiset{g(ys[k])};
      assert (forall x | x in xs' :: x in xs) && forall y | y in ys' :: y in ys;
      SameImages(f, g, xs', ys');
    } else {
      assert xs == ys;
    }
  }

  /** Sorted messages are told apart exactly by what their encodings tell
      apart. */
  lemma SortedMessagesInjective<T, U>(name: string, xs: seq<Option<T>>, ys: seq<Option<T>>, encode: T -> Text,
                                      content: T -> U)
    requires forall x, y ::
        x in Present(xs) && y in Present(ys) ==> (encode(x) == encode(y) <==> content(x) == content(y))
    ensures SortedMessages(name, xs, encode) == SortedMessages(name, ys, encode) <==>
            multiset(Map(content, Present(xs))) == multiset(Map(content, Present(ys)))
  {
    var ex, ey := Map(encode, Present(xs)), Map(encode, Present(ys));
    ListFieldInjective(name, MESSAGE, SortTexts(ex), SortTexts(ey));
    SortForgetsOrder(ex, ey);
    if multiset(ex) == multiset(ey) {
      SameImages(content, encode, Present(xs), Present(ys));
    }
    if multiset(Map(content, Present(xs))) == multiset(Map(content, Present(ys))) {
      SameImages(encode, content, Present(xs), Present(ys));
    }
  }

  // ---- Entries ----

  /** `es` holds what `ms` holds, each as one that is there. */
  ghost predicate Lifted<U(!new)>(es: multiset<Option<U>>, ms: multiset<U>) {
    es[None] == 0 && forall u :: es[Some(u)] == ms[u]
  }

  lemma LiftedAgree<U(!new)>(es: multiset<Option<U>>, ms: multiset<U>, fs: multiset<Option<U>>, ns: multiset<U>)
    requires Lifted(es, ms) && Lifted(fs, ns)
    ensures es == fs <==> ms == ns
  {
    if es == fs {
      forall u ensures ms[u] == ns[u] {
        assert es[Some(u)] == fs[Some(u)];
      }
    }
    if ms == ns {
      forall o: Option<U> ensures es[o] == fs[o] {
        if o.Some? {
          assert es[Some(o.value)] == fs[Some(o.value)];
        }
      }
    }
  }

  lemma LiftedOneMore<U(!new)>(es: multiset<Option<U>>, ms: multiset<U>, u: U)
    requires Lifted(es, ms)
    ensures Lifted(multiset{Some(u)} + es, multiset{u} + ms)
  {
  }

  /** One entry in front, taken off the count when it is absent. */
  lemma WithoutAbsent<U>(first: Option<U>, rest: seq<Option<U>>)
    ensures first.Some? ==> multiset([first] + rest)[None := 0] == multiset{first} + multiset(rest)[None := 0]
    ensures first.None? ==> multiset([first] + rest)[None := 0] == multiset(rest)[None := 0]
  {
  }

  lemma {:induction false} EntriesAreLifted<T, U(!new)>(content: T -> U, xs: seq<Option<T>>)
    ensures Lifted(Entries(content, xs), multiset(Map(content, Present(xs))))
  {
    hide Lifted, Map;
    if xs == [] {
      NothingLifted(content);
    } else {
      var lift := (x: Option<T>) => if x.Some? then Some(content(x.value)) else None;
      EntriesAreLifted(content, xs[1..]);
      assert Map(lift, xs) == [lift(xs[0])] + Map(lift, xs[1..]);
      WithoutAbsent(lift(xs[0]), Map(lift, xs[1..]));
      if xs[0].Some? {
        var u := content(xs[0].value);
        assert Map(content, Present(xs)) == [u] + Map(content, Present(xs[1..]));
        LiftedOneMore(Entries(content, xs[1..]), multiset(Map(content, Present(xs[1..]))), u);
      } else {
        assert lift(xs[0]) == None;
        assert Entries(content, xs) == Entries(content, xs[1..]);
        assert Present(xs) == Present(xs[1..]);
      }
    }
  }

  lemma NothingLifted<T, U(!new)>(content: T -> U)
    ensures Lifted(Entries(content, []), multiset(Map(content, Present([]))))
  {
  }

  /** The sorted list of what is there tells entries apart just so. */
  lemma EntriesAgree<T, U(!new)>(content: T -> U, xs: seq<Option<T>>, ys: seq<Option<T>>)
    ensures Entries(content, xs) == Entries(content, ys) <==>
            multiset(Map(content, Present(xs))) == multiset(Map(content, Present(ys)))
  {
    hide Entries, Map, Present, Lifted;
    EntriesAreLifted(content, xs);
    EntriesAreLifted(content, ys);
    LiftedAgree(Entries(content, xs), multiset(Map(content, Present(xs))), Entries(content, ys),
                multiset(Map(content, Present(ys))));
  }

  lemma PairInjective(typeName: string, p: Pair, q: Pair)
    ensures EncodePair(typeName, p) == EncodePair(typeName, q) <==> p == q
  {
    var fs, gs := [StringField("key", p.key), StringField("value", p.value)],
        [StringField("key", q.key), StringField("value", q.value)];
    if Message(Ascii(typeName), fs) == Message(Ascii(typeName), gs) {
      MessageInjective(Ascii(typeName), fs, Ascii(typeName), gs);
      assert fs[0] == gs[0] && fs[1] == gs[1];
    }
  }

  lemma KeyedListInjective(typeName: string, k: KeyedList, l: KeyedList)
    ensures EncodeKeyedList(typeName, k) == EncodeKeyedList(typeName, l) <==> KeyedListOf(k) == KeyedListOf(l)
  {
    var fs := [StringField("key", k.key), SortedStrings("value", k.values)];
    var gs := [StringField("key", l.key), SortedStrings("value", l.values)];
    SortedStringsInjective("value", k.values, l.values);
    if Message(Ascii(typeName), fs) == Message(Ascii(typeName), gs) {
      MessageInjective(Ascii(typeName), fs, Ascii(typeName), gs);
      assert fs[0] == gs[0] && fs[1] == gs[1];
    }
  }

  lemma FilesetInjective(f: Fileset, g: Fileset)
    ensures EncodeFileset(f) == EncodeFileset(g) <==> FilesetOf(f) == FilesetOf(g)
  {
    hide Message, SortedStrings, BoolField, EnumField;
    var fs, gs := FilesetFields(f), FilesetFields(g);
    BoolFieldInjective("files_present", f.filesPresent, g.filesPresent);
    SortedStringsInjective("file", f.files, g.files);
    SortedStringsInjective("exclude", f.exclude, g.exclude);
    OptionFieldInjective("symlink_behavior", f.symlinkBehavior, g.symlinkBehavior);
    if Message(Ascii("FilesetEntry"), fs) == Message(Ascii("FilesetEntry"), gs) {
      MessageInjective(Ascii("FilesetEntry"), fs, Ascii("FilesetEntry"), gs);
      assert fs[0] == gs[0] && fs[1] == gs[1] && fs[2] == gs[2] && fs[3] == gs[3] && fs[4] == gs[4] && fs[5] == gs[5] &&
             fs[6] == gs[6];
    }
  }

  // ---- Attributes ----

  lemma PairsInjective(name: string, typeName: string, xs: seq<Option<Pair>>, ys: seq<Option<Pair>>)
    ensures SortedMessages(name, xs, p => EncodePair(typeName, p)) ==
            SortedMessages(name, ys, p => EncodePair(typeName, p)) <==>
            Entries(Itself(), xs) == Entries(Itself(), ys)
  {
    var f: Pair -> Pair := Itself();
    forall x, y ensures EncodePair(typeName, x) == EncodePair(typeName, y) <==> f(x) == f(y) {
      PairInjective(typeName, x, y);
    }
    SortedMessagesInjective(name, xs, ys, p => EncodePair(typeName, p), f);
    EntriesAgree(f, xs, ys);
  }

  lemma KeyedListsInjective(name: string, typeName: string, xs: seq<Option<KeyedList>>, ys: seq<Option<KeyedList>>)
    ensures SortedMessages(name, xs, k => EncodeKeyedList(typeName, k)) ==
            SortedMessages(name, ys, k => EncodeKeyedList(typeName, k)) <==>
            Entries(KeyedListOf, xs) == Entries(KeyedListOf, ys)
  {
    forall x, y
      ensures EncodeKeyedList(typeName, x) == EncodeKeyedList(typeName, y) <==> KeyedListOf(x) == KeyedListOf(y)
    {
      KeyedListInjective(typeName, x, y);
    }
    SortedMessagesInjective(name, xs, ys, k => EncodeKeyedList(typeName, k), KeyedListOf);
    EntriesAgree(KeyedListOf, xs, ys);
  }

  lemma FilesetsInjective(name: string, xs: seq<Option<Fileset>>, ys: seq<Option<Fileset>>)
    ensures SortedMessages(name, xs, EncodeFileset) == SortedMessages(name, ys, EncodeFileset) <==>
            Entries(FilesetOf, xs) == Entries(FilesetOf, ys)
  {
    forall x, y ensures EncodeFileset(x) == EncodeFileset(y) <==> FilesetOf(x) == FilesetOf(y) {
      FilesetInjective(x, y);
    }
    SortedMessagesInjective(name, xs, ys, EncodeFileset, FilesetOf);
    EntriesAgree(FilesetOf, xs, ys);
  }

  lemma EightFields(fs: seq<Field>, gs: seq<Field>)
    requires |fs| == |gs| == 8
    ensures fs == gs <==>
            fs[0] == gs[0] && fs[1] == gs[1] && fs[2] == gs[2] && fs[3] == gs[3] && fs[4] == gs[4] && fs[5] == gs[5] &&
            fs[6] == gs[6] && fs[7] == gs[7]
  {
  }

  lemma ScalarsInjective(a: Attribute, b: Attribute)
    ensures ScalarFields(a) == ScalarFields(b) <==>
            a.name == b.name && a.explicitlySpecified == b.explicitlySpecified && a.nodep == b.nodep &&
            a.kind == b.kind &&
            a.intValue == b.intValue && a.stringValue == b.stringValue && a.booleanValue == b.booleanValue &&
            a.tristateValue == b.tristateValue
  {
    hide BoolField, Int32Field, EnumField;
    BoolFieldInjective("explicitly_specified", a.explicitlySpecified, b.explicitlySpecified);
    BoolFieldInjective("nodep", a.nodep, b.nodep);
    OptionFieldInjective("type", a.kind, b.kind);
    OptionFieldInjective("int_value", a.intValue, b.intValue);
    BoolFieldInjective("boolean_value", a.booleanValue, b.booleanValue);
    OptionFieldInjective("tristate_value", a.tristateValue, b.tristateValue);
    EightFields(ScalarFields(a), ScalarFields(b));
  }

  predicate SameCollections(a: Attribute, b: Attribute) {
    var x, y := AttributeOf(a), AttributeOf(b);
    && x.stringList == y.stringList && x.stringDict == y.stringDict && x.filesets == y.filesets
    && x.labelListDict == y.labelListDict && x.stringListDict == y.stringListDict && x.intList == y.intList
    && x.labelDictUnary == y.labelDictUnary && x.labelKeyedStringDict == y.labelKeyedStringDict
  }

  lemma CollectionsInjective(a: Attribute, b: Attribute)
    ensures CollectionFields(a) == CollectionFields(b) <==> SameCollections(a, b)
  {
    hide SortedStrings, SortedMessages, SortedInt32s, Present, Map, Entries, Itself, KeyedListOf, FilesetOf;
    SortedStringsInjective("string_list_value", a.stringList, b.stringList);
    PairsInjective("string_dict_value", "StringDictEntry", a.stringDict, b.stringDict);
    FilesetsInjective("fileset_list_value", a.filesets, b.filesets);
    KeyedListsInjective("label_list_dict_value", "LabelListDictEntry", a.labelListDict, b.labelListDict);
    KeyedListsInjective("string_list_dict_value", "StringListDictEntry", a.stringListDict, b.stringListDict);
    SortedInt32sInjective("int_list_value", a.intList, b.intList);
    PairsInjective("label_dict_unary_value", "LabelDictUnaryEntry", a.labelDictUnary, b.labelDictUnary);
    PairsInjective("label_keyed_string_dict_value", "LabelKeyedStringDictEntry", a.labelKeyedStringDict,
                   b.labelKeyedStringDict);
    EightFields(CollectionFields(a), CollectionFields(b));
  }

  lemma AttributeFieldsInjective(a: Attribute, b: Attribute)
    ensures AttributeFields(a) == AttributeFields(b) <==> AttributeOf(a) == AttributeOf(b)
  {
    hide ScalarFields, CollectionFields, Entries, Itself, Map, KeyedListOf, FilesetOf;
    ScalarsInjective(a, b);
    CollectionsInjective(a, b);
    var fs, gs := AttributeFields(a), AttributeFields(b);
    assert fs[..8] == ScalarFields(a) && gs[..8] == ScalarFields(b);
    assert fs[8..] == CollectionFields(a) && gs[8..] == CollectionFields(b);
  }

  lemma AttributeInjective(a: Attribute, b: Attribute)
    ensures EncodeAttribute(a) == EncodeAttribute(b) <==> AttributeOf(a) == AttributeOf(b)
  {
    hide Message, AttributeFields, AttributeOf;
    AttributeFieldsInjective(a, b);
    if EncodeAttribute(a) == EncodeAttribute(b) {
      MessageInjective(Ascii("Attribute"), AttributeFields(a), Ascii("Attribute"), AttributeFields(b));
    }
  }

  // ---- Rules ----

  lemma {:induction false} UniqueAfterSorting(attributes: seq<Attribute>, sorted: seq<Attribute>)
    requires UniqueNames(attributes) && multiset(sorted) == multiset(attributes)
    ensures UniqueNames(sorted)
  {
    SameElements(attributes, sorted);
    assert NoDuplicates(attributes) by {
      forall i, j | 0 <= i < j < |attributes| ensures attributes[i] != attributes[j] {
        assert NameOf(attributes[i]) != NameOf(attributes[j]);
      }
    }
    SortingKeepsDistinct(attributes, sorted);
    forall i, j | 0 <= i < j < |sorted| ensures NameOf(sorted[i]) != NameOf(sorted[j]) {
      assert sorted[i] in sorted && sorted[j] in sorted;
      var k :| 0 <= k < |attributes| && attributes[k] == sorted[i];
      var l :| 0 <= l < |attributes| && attributes[l] == sorted[j];
      assert k != l;
    }
  }

  /** The contents of uniquely named attributes, sorted by name, are determined
      by the multiset of contents. */
  lemma SortedContents(xs: seq<Attribute>, ys: seq<Attribute>)
    requires UniqueNames(xs) && UniqueNames(ys)
    ensures Map(AttributeOf, SortAttributes(xs)) == Map(AttributeOf, SortAttributes(ys)) <==>
            multiset(Map(AttributeOf, xs)) == multiset(Map(AttributeOf, ys))
  {
    hide AttributeOf;
    var s, t := SortAttributes(xs), SortAttributes(ys);
    var u, v := Map(AttributeOf, s), Map(AttributeOf, t);
    var same := (a: Attribute) => a;
    assert Map(same, xs) == xs && Map(same, s) == s && Map(same, ys) == ys && Map(same, t) == t;
    SameImages(AttributeOf, same, xs, s);
    SameImages(AttributeOf, same, ys, t);
    if multiset(Map(AttributeOf, xs)) == multiset(Map(AttributeOf, ys)) {
      ContentsSorted(xs);
      ContentsSorted(ys);
      DistinctContents(xs);
      SortedUnique(ContentLeq, u, v);
    }
  }

  /** The name of an attribute's content. */
  function ContentName(c: AttributeContent): Text {
    if c.name.Some? then c.name.value else []
  }

  predicate ContentLeq(c: AttributeContent, d: AttributeContent) {
    LessEq(ContentName(c), ContentName(d))
  }

  lemma ContentsSorted(xs: seq<Attribute>)
    ensures Sorted(ContentLeq, Map(AttributeOf, SortAttributes(xs)))
  {
    var leq := (a: Attribute, b: Attribute) => LessEq(NameOf(a), NameOf(b));
    LessEqIsTotalOrder();
    SortSorted(leq, xs);
    var s := SortAttributes(xs);
    forall i, j | 0 <= i < j < |s| ensures ContentLeq(AttributeOf(s[i]), AttributeOf(s[j])) {
      assert leq(s[i], s[j]);
    }
  }

  lemma DistinctContents(xs: seq<Attribute>)
    requires UniqueNames(xs)
    ensures forall c, d ::
        c in Map(AttributeOf, SortAttributes(xs)) && d in Map(AttributeOf, SortAttributes(xs)) && ContentLeq(c, d) &&
        ContentLeq(d, c) ==>
          c == d
  {
    hide AttributeOf, Less, ContentName, NameOf, SortAttributes;
    var s := SortAttributes(xs);
    UniqueAfterSorting(xs, s);
    var u := Map(AttributeOf, s);
    forall c, d | c in u && d in u && ContentLeq(c, d) && ContentLeq(d, c) ensures c == d {
      var i :| 0 <= i < |s| && u[i] == c;
      var j :| 0 <= j < |s| && u[j] == d;
      ContentNameIs(s[i]);
      ContentNameIs(s[j]);
      SameName(c, d);
    }
  }

  lemma ContentNameIs(a: Attribute)
    ensures ContentName(AttributeOf(a)) == NameOf(a)
  {
  }

  lemma SameName(c: AttributeContent, d: AttributeContent)
    requires ContentLeq(c, d) && ContentLeq(d, c)
    ensures ContentName(c) == ContentName(d)
  {
    LessEqIsTotalOrder();
  }

  lemma AttributesInjective(xs: seq<Attribute>, ys: seq<Attribute>)
    requires UniqueNames(xs) && UniqueNames(ys)
    ensures Map(EncodeAttribute, SortAttributes(xs)) == Map(EncodeAttribute, SortAttributes(ys)) <==>
            multiset(Map(AttributeOf, xs)) == multiset(Map(AttributeOf, ys))
  {
    hide EncodeAttribute, AttributeOf;
    var s, t := SortAttributes(xs), SortAttributes(ys);
    SortedContents(xs, ys);
    if |s| == |t| {
      forall i | 0 <= i < |s|
        ensures EncodeAttribute(s[i]) == EncodeAttribute(t[i]) <==> AttributeOf(s[i]) == AttributeOf(t[i])
      {
        AttributeInjective(s[i], t[i]);
      }
      var es, et, us, ut := Map(EncodeAttribute, s), Map(EncodeAttribute, t), Map(AttributeOf, s), Map(AttributeOf, t);
      assert es == et <==> forall i | 0 <= i < |s| :: es[i] == et[i];
      assert us == ut <==> forall i | 0 <= i < |s| :: us[i] == ut[i];
    } else {
      assert |Map(EncodeAttribute, s)| != |Map(EncodeAttribute, t)|;
      assert |Map(AttributeOf, s)| != |Map(AttributeOf, t)|;
    }
  }

  lemma {:induction false} ContentsAreLifted(xs: seq<Option<Attribute>>)
    ensures Lifted(multiset(Map(ContentFor, xs))[None := 0], multiset(Map(AttributeOf, Relevant(xs))))
  {
    hide AttributeOf, Relevant, Lifted, Map;
    if xs == [] {
      NothingRelevant();
      NoContents();
    } else {
      ContentsAreLifted(xs[1..]);
      assert Map(ContentFor, xs) == [ContentFor(xs[0])] + Map(ContentFor, xs[1..]);
      WithoutAbsent(ContentFor(xs[0]), Map(ContentFor, xs[1..]));
      RelevantParts(xs);
      if ContentFor(xs[0]).Some? {
        var c := AttributeOf(xs[0].value);
        assert Map(AttributeOf, Relevant(xs)) == [c] + Map(AttributeOf, Relevant(xs[1..]));
        LiftedOneMore(multiset(Map(ContentFor, xs[1..]))[None := 0], multiset(Map(AttributeOf, Relevant(xs[1..]))), c);
      } else {
        assert Relevant(xs) == Relevant(xs[1..]);
      }
    }
  }

  lemma NoContents()
    ensures Lifted(multiset(Map(ContentFor, []))[None := 0], multiset(Map(AttributeOf, [])))
  {
  }

  lemma NothingRelevant()
    ensures Relevant([]) == []
  {
  }

  lemma RelevantParts(xs: seq<Option<Attribute>>)
    requires xs != []
    ensures Relevant(xs) ==
            (if xs[0].Some? && xs[0].value.name != Some(Ascii("generator_location")) then [xs[0].value] else []) +
            Relevant(xs[1..])
  {
    if xs[0].Some? {
      assert Present(xs)[1..] == Present(xs[1..]);
    } else {
      assert Present(xs) == Present(xs[1..]);
    }
  }

  lemma ContentsAgree(xs: seq<Option<Attribute>>, ys: seq<Option<Attribute>>)
    ensures multiset(Map(ContentFor, xs))[None := 0] == multiset(Map(ContentFor, ys))[None := 0] <==>
            multiset(Map(AttributeOf, Relevant(xs))) == multiset(Map(AttributeOf, Relevant(ys)))
  {
    hide Map, ContentFor, AttributeOf, Relevant, Lifted;
    ContentsAreLifted(xs);
    ContentsAreLifted(ys);
    LiftedAgree(multiset(Map(ContentFor, xs))[None := 0], multiset(Map(AttributeOf, Relevant(xs))),
                multiset(Map(ContentFor, ys))[None := 0], multiset(Map(AttributeOf, Relevant(ys))));
  }

  lemma {:induction false} RelevantIsListed(xs: seq<Option<Attribute>>, i: nat, j: nat) returns (k: nat, l: nat)
    requires i < j < |Relevant(xs)|
    ensures k < l < |xs| && xs[k] == Some(Relevant(xs)[i]) && xs[l] == Some(Relevant(xs)[j])
  {
    RelevantParts(xs);
    var here := |Relevant(xs)| - |Relevant(xs[1..])|;
    if i < here {
      k := 0;
      l := RelevantAt(xs[1..], j - 1);
      l := l + 1;
    } else {
      k, l := RelevantIsListed(xs[1..], i - here, j - here);
      k, l := k + 1, l + 1;
    }
  }

  lemma {:induction false} RelevantAt(xs: seq<Option<Attribute>>, i: nat) returns (k: nat)
    requires i < |Relevant(xs)|
    ensures k < |xs| && xs[k] == Some(Relevant(xs)[i])
  {
    RelevantParts(xs);
    var here := |Relevant(xs)| - |Relevant(xs[1..])|;
    if i < here {
      k := 0;
    } else {
      k := RelevantAt(xs[1..], i - here);
      k := k + 1;
    }
  }

  lemma RelevantAreUnique(xs: seq<Option<Attribute>>)
    requires DistinctlyNamed(xs)
    ensures UniqueNames(Relevant(xs))
  {
    hide Relevant;
    var r := Relevant(xs);
    forall i, j | 0 <= i < j < |r| ensures NameOf(r[i]) != NameOf(r[j]) {
      var k, l := RelevantIsListed(xs, i, j);
      assert xs[k].Some? && xs[l].Some?;
    }
  }

  /** Two rules with uniquely named attributes are hashed from the same bytes
      exactly when they agree up to order and excluded fields. */
  lemma RuleEncodingIsExact(r: BazelRule, q: BazelRule)
    requires DistinctlyNamed(r.attributes) && DistinctlyNamed(q.attributes)
    ensures EncodeRule(r) == EncodeRule(q) <==> RuleOf(r) == RuleOf(q)
  {
    hide Message, SortedStrings, ListField, Relevant, EncodeAttribute, AttributeOf, UniqueNames, SortAttributes, Map,
      DistinctlyNamed, ContentFor;
    var fs, gs := RuleFields(r), RuleFields(q);
    RelevantAreUnique(r.attributes);
    RelevantAreUnique(q.attributes);
    ContentsAgree(r.attributes, q.attributes);
    AttributesInjective(Relevant(r.attributes), Relevant(q.attributes));
    ListFieldInjective("attribute", MESSAGE, Map(EncodeAttribute, SortAttributes(Relevant(r.attributes))),
                       Map(EncodeAttribute, SortAttributes(Relevant(q.attributes))));
    SortedStringsInjective("rule_input", r.ruleInput, q.ruleInput);
    SortedStringsInjective("rule_output", r.ruleOutput, q.ruleOutput);
    SortedStringsInjective("default_setting", r.defaultSetting, q.defaultSetting);
    if EncodeRule(r) == EncodeRule(q) {
      MessageInjective(Ascii("Rule"), fs, Ascii("Rule"), gs);
      assert fs[0] == gs[0] && fs[1] == gs[1] && fs[2] == gs[2] && fs[3] == gs[3] && fs[4] == gs[4] && fs[5] == gs[5] &&
             fs[6] == gs[6];
    }
  }

  /** The same for the bytes fed to the hash, a missing rule included. */
  lemma RuleBytesAreExact(r: Option<BazelRule>, q: Option<BazelRule>)
    requires r.Some? ==> DistinctlyNamed(r.value.attributes)
    requires q.Some? ==> DistinctlyNamed(q.value.attributes)
    ensures RuleBytes(r) == RuleBytes(q) <==>
            r.Some? == q.Some? && (r.Some? && q.Some? ==> RuleOf(r.value) == RuleOf(q.value))
  {
    hide EncodeRule, RuleOf, EncodeField;
    if r.Some? && q.Some? {
      RuleEncodingIsExact(r.value, q.value);
    }
    var f := Field(Ascii("rule"), MESSAGE, if r.Some? then Some(EncodeRule(r.value)) else None);
    var g := Field(Ascii("rule"), MESSAGE, if q.Some? then Some(EncodeRule(q.value)) else None);
    if EncodeField(f) == EncodeField(g) {
      assert EncodeField(f) + [] == EncodeField(g) + [];
      FieldPrefixFree(f, g, [], []);
    }
  }

  // ---- The same, attribute by attribute ----

  lemma PairsCounted(xs: seq<Option<Pair>>, ys: seq<Option<Pair>>)
    ensures Entries(Itself(), xs) == Entries(Itself(), ys) <==>
            forall p :: multiset(xs)[Some(p)] == multiset(ys)[Some(p)]
  {
    hide Entries, Itself;
    PairsAreEntries(xs);
    PairsAreEntries(ys);
    SameCounts(multiset(xs), multiset(ys));
  }

  lemma EntriesPointwise<T, U>(content: T -> U, xs: seq<Option<T>>, zs: seq<Option<U>>)
    requires |zs| == |xs|
    requires forall k | 0 <= k < |xs| :: zs[k] == if xs[k].Some? then Some(content(xs[k].value)) else None
    ensures Entries(content, xs) == multiset(zs)[None := 0]
  {
    assert Map((x: Option<T>) => if x.Some? then Some(content(x.value)) else None, xs) == zs;
  }

  lemma PairsAreEntries(xs: seq<Option<Pair>>)
    ensures Entries(Itself(), xs) == multiset(xs)[None := 0]
  {
    EntriesPointwise(Itself<Pair>(), xs, xs);
  }

  /** Two attributes have one content exactly when they agree in every field but
      the location, lists up to order and dictionaries without absent pairs. */
  lemma AttributeContentIs(a: Attribute, b: Attribute)
    ensures AttributeOf(a) == AttributeOf(b) <==>
            && a.name == b.name && a.explicitlySpecified == b.explicitlySpecified && a.nodep == b.nodep
            && a.kind == b.kind && a.intValue == b.intValue && a.stringValue == b.stringValue
            && a.booleanValue == b.booleanValue && a.tristateValue == b.tristateValue
            && multiset(a.stringList) == multiset(b.stringList) && multiset(a.intList) == multiset(b.intList)
            && (forall p :: multiset(a.stringDict)[Some(p)] == multiset(b.stringDict)[Some(p)])
            && (forall p :: multiset(a.labelDictUnary)[Some(p)] == multiset(b.labelDictUnary)[Some(p)])
            && (forall p :: multiset(a.labelKeyedStringDict)[Some(p)] == multiset(b.labelKeyedStringDict)[Some(p)])
            && Entries(FilesetOf, a.filesets) == Entries(FilesetOf, b.filesets)
            && Entries(KeyedListOf, a.labelListDict) == Entries(KeyedListOf, b.labelListDict)
            && Entries(KeyedListOf, a.stringListDict) == Entries(KeyedListOf, b.stringListDict)
  {
    hide Entries, Itself, FilesetOf, KeyedListOf;
    PairsCounted(a.stringDict, b.stringDict);
    PairsCounted(a.labelDictUnary, b.labelDictUnary);
    PairsCounted(a.labelKeyedStringDict, b.labelKeyedStringDict);
  }

  /** Every attribute of `xs` but the macro's call site is one of `ys`, up to
      the order of its lists. */
  predicate Covers(xs: seq<Option<Attribute>>, ys: seq<Option<Attribute>>) {
    forall i | 0 <= i < |xs| && xs[i].Some? && xs[i].value.name != Some(Ascii("generator_location")) ::
      exists j :: 0 <= j < |ys| && ys[j].Some? && AttributeOf(ys[j].value) == AttributeOf(xs[i].value)
  }

  lemma ContentsOnce(xs: seq<Option<Attribute>>, c: AttributeContent)
    requires DistinctlyNamed(xs)
    ensures multiset(Map(ContentFor, xs))[Some(c)] == if Some(c) in Map(ContentFor, xs) then 1 else 0
  {
    hide AttributeOf, Relevant, ContentFor;
    ContentsAreLifted(xs);
    RelevantAreUnique(xs);
    var contents := Map(AttributeOf, Relevant(xs));
    forall i, j | 0 <= i < j < |contents| ensures contents[i] != contents[j] {
      ContentNameIs(Relevant(xs)[i]);
      ContentNameIs(Relevant(xs)[j]);
    }
    OnceEach(contents, c);
    assert multiset(Map(ContentFor, xs))[Some(c)] == multiset(contents)[c];
  }

  lemma CoveredContents(xs: seq<Option<Attribute>>, ys: seq<Option<Attribute>>)
    ensures Covers(xs, ys) <==> forall c | Some(c) in Map(ContentFor, xs) :: Some(c) in Map(ContentFor, ys)
  {
    var cs, ds := Map(ContentFor, xs), Map(ContentFor, ys);
    if Covers(xs, ys) {
      forall c | Some(c) in cs ensures Some(c) in ds {
        var i :| 0 <= i < |cs| && cs[i] == Some(c);
        var j :| 0 <= j < |ys| && ys[j].Some? && AttributeOf(ys[j].value) == AttributeOf(xs[i].value);
        assert AttributeOf(ys[j].value).name == ys[j].value.name && AttributeOf(xs[i].value).name == xs[i].value.name;
        assert ds[j] == Some(c);
      }
    }
    if forall c | Some(c) in cs :: Some(c) in ds {
      forall i | 0 <= i < |xs| && xs[i].Some? && xs[i].value.name != Some(Ascii("generator_location"))
        ensures exists j :: 0 <= j < |ys| && ys[j].Some? && AttributeOf(ys[j].value) == AttributeOf(xs[i].value)
      {
        assert cs[i] == Some(AttributeOf(xs[i].value));
        var j :| 0 <= j < |ds| && ds[j] == cs[i];
        assert ys[j].Some?;
      }
    }
  }

  /** Two versions of a rule are hashed from the same bytes exactly when no field
      but the locations and no attribute but generator_location differs. */
  lemma RuleBytesTell(r: BazelRule, q: BazelRule)
    requires DistinctlyNamed(r.attributes) && DistinctlyNamed(q.attributes)
    ensures RuleBytes(Some(r)) == RuleBytes(Some(q)) <==>
            && r.name == q.name && r.ruleClass == q.ruleClass && r.environmentHash == q.environmentHash
            && multiset(r.ruleInput) == multiset(q.ruleInput) && multiset(r.ruleOutput) == multiset(q.ruleOutput)
            && multiset(r.defaultSetting) == multiset(q.defaultSetting)
            && Covers(r.attributes, q.attributes) && Covers(q.attributes, r.attributes)
  {
    hide Covers, DistinctlyNamed, ContentFor, Map, RuleBytes;
    RuleBytesAreExact(Some(r), Some(q));
    CoveredContents(r.attributes, q.attributes);
    CoveredContents(q.attributes, r.attributes);
    var es, fs := multiset(Map(ContentFor, r.attributes)), multiset(Map(ContentFor, q.attributes));
    forall c
      ensures es[Some(c)] == if Some(c) in Map(ContentFor, r.attributes) then 1 else 0
      ensures fs[Some(c)] == if Some(c) in Map(ContentFor, q.attributes) then 1 else 0
    {
      ContentsOnce(r.attributes, c);
      ContentsOnce(q.attributes, c);
    }
    SameCounts(es, fs);
  }

  lemma SameCounts<U>(es: multiset<Option<U>>, fs: multiset<Option<U>>)
    ensures es[None := 0] == fs[None := 0] <==> forall u :: es[Some(u)] == fs[Some(u)]
  {
    var ds, hs := es[None := 0], fs[None := 0];
    if ds == hs {
      forall u ensures es[Some(u)] == fs[Some(u)] {
        assert ds[Some(u)] == hs[Some(u)];
      }
    }
    if forall u :: es[Some(u)] == fs[Some(u)] {
      forall o: Option<U> ensures ds[o] == hs[o] {
        if o.Some? {
          assert es[Some(o.value)] == fs[Some(o.value)];
        }
      }
    }
  }
}
