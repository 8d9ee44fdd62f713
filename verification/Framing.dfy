/** The length-framed canonical encoding: fields with a name, a type and a
    presence mark, and lists of elements. */
module Framing {
  import opened Wrappers
  import opened ByteStrings
  import opened Varint

  const MESSAGE: byte := 1
  const STRING: byte := 2
  const BOOL: byte := 3
  const INT32: byte := 4
  const ENUM: byte := 5
  const LIST: byte := 6

  function Framed(value: Text): Text {
    PutUvarint(|value|) + value
  }

  /** No number is a proper beginning of another. */
  lemma {:induction false} UvarintPrefixFree(a: nat, b: nat, r: Text, s: Text)
    requires PutUvarint(a) + r == PutUvarint(b) + s
    ensures a == b && r == s
    decreases a
  {
    var x, y := PutUvarint(a) + r, PutUvarint(b) + s;
    assert x[0] == y[0];
    if a >= 128 {
      assert x[1..] == PutUvarint(a / 128) + r;
      assert y[1..] == PutUvarint(b / 128) + s;
      UvarintPrefixFree(a / 128, b / 128, r, s);
    } else {
      assert x[1..] == r && y[1..] == s;
    }
  }

  /** A framed value and what follows it can be told apart. */
  lemma FramedPrefixFree(v: Text, w: Text, r: Text, s: Text)
    requires Framed(v) + r == Framed(w) + s
    ensures v == w && r == s
  {
    assert Framed(v) + r == PutUvarint(|v|) + (v + r);
    assert Framed(w) + s == PutUvarint(|w|) + (w + s);
    UvarintPrefixFree(|v|, |w|, v + r, w + s);
    assert v == (v + r)[..|v|] && w == (w + s)[..|w|];
    assert r == (v + r)[|v|..] && s == (w + s)[|w|..];
  }

  // ---- Fields ----

  datatype Field = Field(name: Text, kind: byte, value: Option<Text>)

  function EncodeField(f: Field): (b: Text)
    ensures |b| > 0
  {
    Framed(f.name) + [f.kind] + match f.value case None => [0] case Some(payload) => [1] + Framed(payload)
  }

  function EncodeFields(fields: seq<Field>): Text {
    if fields == [] then [] else EncodeField(fields[0]) + EncodeFields(fields[1..])
  }

  function ValuePart(f: Field): (v: Text)
    ensures |v| > 0 && (v[0] == 0 || v[0] == 1) && (v[0] == 1 <==> f.value.Some?)
    ensures f.value.None? ==> |v| == 1
  {
    match f.value case None => [0] case Some(payload) => [1] + Framed(payload)
  }

  lemma ValuePrefixFree(f: Field, g: Field, r: Text, s: Text)
    requires ValuePart(f) + r == ValuePart(g) + s
    ensures f.value == g.value && r == s
  {
    var f', g' := ValuePart(f), ValuePart(g);
    assert (f' + r)[0] == f'[0] && (g' + s)[0] == g'[0];
    assert (f' + r)[1..] == f'[1..] + r && (g' + s)[1..] == g'[1..] + s;
    if f.value.Some? {
      assert f'[1..] == Framed(f.value.value) && g'[1..] == Framed(g.value.value);
      FramedPrefixFree(f.value.value, g.value.value, r, s);
    } else {
      assert f'[1..] == [] && g'[1..] == [];
      assert [] + r == r && [] + s == s;
    }
  }

  lemma FieldParts(f: Field, r: Text)
    ensures EncodeField(f) + r == Framed(f.name) + ([f.kind] + (ValuePart(f) + r))
  {
    hide Framed;
  }

  lemma FieldPrefixFree(f: Field, g: Field, r: Text, s: Text)
    requires EncodeField(f) + r == EncodeField(g) + s
    ensures f == g && r == s
  {
    hide Framed, EncodeField, ValuePart;
    var x, y := [f.kind] + (ValuePart(f) + r), [g.kind] + (ValuePart(g) + s);
    FieldParts(f, r);
    FieldParts(g, s);
    FramedPrefixFree(f.name, g.name, x, y);
    assert x[0] == f.kind && y[0] == g.kind && x[1..] == ValuePart(f) + r && y[1..] == ValuePart(g) + s;
    ValuePrefixFree(f, g, r, s);
  }

  /** Field lists are told apart by their bytes. */
  lemma {:induction false} FieldsInjective(fs: seq<Field>, gs: seq<Field>)
    requires EncodeFields(fs) == EncodeFields(gs)
    ensures fs == gs
  {
    if fs != [] && gs != [] {
      FieldPrefixFree(fs[0], gs[0], EncodeFields(fs[1..]), EncodeFields(gs[1..]));
      FieldsInjective(fs[1..], gs[1..]);
      assert fs == [fs[0]] + fs[1..] && gs == [gs[0]] + gs[1..];
    }
  }

  function Message(typeName: Text, fields: seq<Field>): Text {
    EncodeFields([Field(Ascii("message_type"), STRING, Some(typeName))] + fields)
  }

  lemma MessageInjective(t: Text, fs: seq<Field>, u: Text, gs: seq<Field>)
    requires Message(t, fs) == Message(u, gs)
    ensures t == u && fs == gs
  {
    var f, g := Field(Ascii("message_type"), STRING, Some(t)), Field(Ascii("message_type"), STRING, Some(u));
    FieldsInjective([f] + fs, [g] + gs);
    assert ([f] + fs)[0] == ([g] + gs)[0];
    assert ([f] + fs)[1..] == fs && ([g] + gs)[1..] == gs;
  }

  // ---- Lists ----

  function EncodeElements(elements: seq<Text>): Text {
    if elements == [] then [] else [1] + Framed(elements[0]) + EncodeElements(elements[1..])
  }

  function EncodeList(kind: byte, elements: seq<Text>): Text {
    [kind] + PutUvarint(|elements|) + EncodeElements(elements)
  }

  lemma {:induction false} ElementsInjective(xs: seq<Text>, ys: seq<Text>)
    requires EncodeElements(xs) == EncodeElements(ys)
    ensures xs == ys
  {
    if xs != [] && ys != [] {
      var a, b := EncodeElements(xs), EncodeElements(ys);
      assert a[1..] == Framed(xs[0]) + EncodeElements(xs[1..]);
      assert b[1..] == Framed(ys[0]) + EncodeElements(ys[1..]);
      FramedPrefixFree(xs[0], ys[0], EncodeElements(xs[1..]), EncodeElements(ys[1..]));
      ElementsInjective(xs[1..], ys[1..]);
      assert xs == [xs[0]] + xs[1..] && ys == [ys[0]] + ys[1..];
    }
  }

  /** Lists are told apart by their bytes. */
  lemma ListInjective(kind: byte, xs: seq<Text>, kind': byte, ys: seq<Text>)
    requires EncodeList(kind, xs) == EncodeList(kind', ys)
    ensures kind == kind' && xs == ys
  {
    var a, b := EncodeList(kind, xs), EncodeList(kind', ys);
    assert a[0] == b[0];
    assert a[1..] == PutUvarint(|xs|) + EncodeElements(xs);
    assert b[1..] == PutUvarint(|ys|) + EncodeElements(ys);
    UvarintPrefixFree(|xs|, |ys|, EncodeElements(xs), EncodeElements(ys));
    ElementsInjective(xs, ys);
  }
}
