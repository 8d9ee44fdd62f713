/** The variable-length integers of the blob format, with Go's 64-bit reader
    and the 32-bit conversions of its callers. */
module Varint {
  import opened Wrappers
  import opened ByteStrings

  const TWO_31 := 0x8000_0000
  const TWO_32 := 0x1_0000_0000
  const TWO_63 := 0x8000_0000_0000_0000
  const TWO_64 := 0x1_0000_0000_0000_0000

  type int32 = x: int | -TWO_31 <= x < TWO_31

  type uint64 = x: int | 0 <= x < TWO_64

  type int64 = x: int | -TWO_63 <= x < TWO_63

  /** `int32(x)`: the low 32 bits, as a signed number. */
  function Int32(x: int): (y: int32)
    ensures -TWO_31 <= x < TWO_31 ==> y == x
  {
    (x + TWO_31) % TWO_32 - TWO_31
  }

  /** `uint64(x)`. */
  function Uint64(x: int): (y: uint64)
    ensures 0 <= x < TWO_64 ==> y == x
  {
    x % TWO_64
  }

  /** `binary.AppendUvarint(nil, v)`. */
  function PutUvarint(v: nat): (b: Text)
    ensures |b| > 0
  {
    if v < 128 then [v] else [128 + v % 128] + PutUvarint(v / 128)
  }

  /** How many values the digits from position `i` on may hold. */
  function Cap(i: nat): (c: nat)
    requires i <= 9
    ensures c > 0
    decreases 9 - i
  {
    if i == 9 then 2 else 128 * Cap(i + 1)
  }

  lemma CapIsUint64()
    ensures Cap(0) == TWO_64
  {
    assert Cap(9) == 2 && Cap(8) == 0x100 && Cap(7) == 0x8000 && Cap(6) == 0x40_0000 && Cap(5) == 0x2000_0000;
    assert Cap(4) == 0x10_0000_0000 && Cap(3) == 0x800_0000_0000 && Cap(2) == 0x4_0000_0000_0000 &&
           Cap(1) == 0x200_0000_0000_0000;
  }

  /** A value and the number of bytes it took. */
  datatype Parsed<+T> = Parsed(value: T, size: nat)

  /** `binary.Uvarint(b[i:])` after `i` digits of the same number: None for a
      truncated number and for one past 64 bits. */
  function ReadDigits(b: Text, i: nat): (r: Option<Parsed<nat>>)
    ensures r.Some? ==> i < 10 && 0 < r.value.size <= |b| && (i <= 9 ==> r.value.value < Cap(i))
    decreases |b|
  {
    if b == [] || i >= 10 then None
    else if b[0] < 128 then (if i == 9 && b[0] > 1 then None else Some(Parsed(b[0], 1)))
    else
      match ReadDigits(b[1..], i + 1)
      case None => None
      case Some(rest) => Some(Parsed(b[0] - 128 + 128 * rest.value, rest.size + 1))
  }

  function ReadUvarint(b: Text): (r: Option<Parsed<uint64>>)
    ensures r.Some? ==> 0 < r.value.size <= |b|
  {
    CapIsUint64();
    match ReadDigits(b, 0)
    case None => None
    case Some(p) => Some(Parsed(p.value, p.size))
  }

  lemma {:induction false} DigitsRoundTrip(v: nat, rest: Text, i: nat)
    requires i <= 9 && v < Cap(i)
    ensures ReadDigits(PutUvarint(v) + rest, i) == Some(Parsed(v, |PutUvarint(v)|))
    decreases v
  {
    var b := PutUvarint(v) + rest;
    if v >= 128 {
      assert b[1..] == PutUvarint(v / 128) + rest;
      DigitsRoundTrip(v / 128, rest, i + 1);
    }
  }

  /** What was written is read back, whatever follows it. */
  lemma UvarintRoundTrip(v: uint64, rest: Text)
    ensures ReadUvarint(PutUvarint(v) + rest) == Some(Parsed(v, |PutUvarint(v)|))
  {
    CapIsUint64();
    DigitsRoundTrip(v, rest, 0);
  }

  /** The same, for what is left once the number is consumed. */
  lemma UvarintThen(v: uint64, rest: Text)
    ensures ReadUvarint(PutUvarint(v) + rest) == Some(Parsed(v, |PutUvarint(v)|))
    ensures (PutUvarint(v) + rest)[|PutUvarint(v)|..] == rest
  {
    UvarintRoundTrip(v, rest);
  }

  // ---- Zigzag ----

  /** `uint64((v << 1) ^ (v >> 63))`. */
  function Zigzag(v: int64): uint64 {
    if v >= 0 then 2 * v else -2 * v - 1
  }

  /** `int64((u >> 1) ^ -(u & 1))`. */
  function Unzigzag(u: uint64): int64 {
    if u % 2 == 0 then u / 2 else -(u / 2) - 1
  }

  function PutZigzag(v: int64): Text {
    PutUvarint(Zigzag(v))
  }

  function ReadZigzag(b: Text): (r: Option<Parsed<int64>>)
    ensures r.Some? ==> 0 < r.value.size <= |b|
  {
    match ReadUvarint(b)
    case None => None
    case Some(p) => Some(Parsed(Unzigzag(p.value), p.size))
  }

  /** The signed mapping is a bijection of the 64-bit numbers. The last bit is
      the sign, and half of it, rounded up, is the magnitude. */
  lemma ZigzagIsBijective(v: int64, u: uint64)
    ensures Unzigzag(Zigzag(v)) == v && Zigzag(Unzigzag(u)) == u
    ensures Zigzag(v) % 2 == 1 <==> v < 0
    ensures if v < 0 then (Zigzag(v) + 1) / 2 == 0 - v else Zigzag(v) / 2 == v
  {
  }

  lemma ZigzagRoundTrip(v: int64, rest: Text)
    ensures ReadZigzag(PutZigzag(v) + rest) == Some(Parsed(v, |PutZigzag(v)|))
    ensures (PutZigzag(v) + rest)[|PutZigzag(v)|..] == rest
  {
    UvarintThen(Zigzag(v), rest);
  }
}
