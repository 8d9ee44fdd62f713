/** The hash column: the leading bytes of every hash, a fixed number a node. */
module HashColumn {
  import opened Wrappers
  import opened ByteStrings
  import opened Snapshot
  import opened Slices

  /** The value of a hexadecimal digit, of either case. */
  function Nibble(c: byte): (v: Option<byte>)
    ensures v.Some? ==> v.value < 16
  {
    if 48 <= c <= 57 then Some(c - 48)
    else if 97 <= c <= 102 then Some(c - 87)
    else if 65 <= c <= 70 then Some(c - 55)
    else None
  }

  /** The sixteen digits in either case, and what is written of each value. */
  lemma HexDigitsAre(c: byte, v: byte)
    requires v < 16
    ensures Nibble(c) == Some(v) <==> c == Ascii("0123456789abcdef")[v] || c == Ascii("0123456789ABCDEF")[v]
    ensures HexDigit(v) == Ascii("0123456789abcdef")[v]
  {
    AsciiIsBytewise("0123456789abcdef", v);
    AsciiIsBytewise("0123456789ABCDEF", v);
  }

  /** A byte is written as two digits, the high one first. */
  lemma {:induction false} HexDigitAt(s: seq<byte>, i: nat)
    requires i < |s|
    ensures HexEncode(s)[2 * i] == Ascii("0123456789abcdef")[s[i] / 16]
    ensures HexEncode(s)[2 * i + 1] == Ascii("0123456789abcdef")[s[i] % 16]
  {
    hide HexDigit;
    if i == 0 {
      HexDigitsAre(0, s[0] / 16);
      HexDigitsAre(0, s[0] % 16);
    } else {
      HexDigitAt(s[1..], i - 1);
    }
  }

  predicate IsHex(s: Text) {
    forall i | 0 <= i < |s| :: Nibble(s[i]).Some?
  }

  /** The bytes an even number of digits spells. */
  function Unhex(s: Text): (b: Text)
    requires |s| % 2 == 0 && IsHex(s)
    ensures |b| == |s| / 2
  {
    if s == [] then [] else [16 * Nibble(s[0]).value + Nibble(s[1]).value] + Unhex(s[2..])
  }

  /** The hash can be stored: an even number of digits, enough of them, and
      nothing but digits to its very end. */
  predicate Storable(s: Text, stride: nat) {
    |s| % 2 == 0 && |s| / 2 >= stride && IsHex(s)
  }

  function Lower(s: Text): (t: Text)
    ensures |t| == |s|
  {
    seq(|s|, i requires 0 <= i < |s| => if 65 <= s[i] <= 70 then s[i] + 32 else s[i])
  }

  lemma LowerOfParts(s: Text)
    requires |s| >= 2
    ensures Lower(s) == Lower(s[..2]) + Lower(s[2..])
  {
  }

  lemma LowerDigit(a: byte, b: byte)
    requires Nibble(a).Some? && Nibble(b).Some?
    ensures var v := 16 * Nibble(a).value + Nibble(b).value; Lower([a, b]) == [HexDigit(v / 16), HexDigit(v % 16)]
  {
  }

  /** Digits come back in lower case. */
  lemma {:induction false} HexOfUnhex(s: Text)
    requires |s| % 2 == 0 && IsHex(s)
    ensures HexEncode(Unhex(s)) == Lower(s)
  {
    hide Nibble, Lower, HexDigit;
    if s == [] {
      NothingLower();
    } else {
      HexOfUnhex(s[2..]);
      assert Unhex(s)[1..] == Unhex(s[2..]) && s[..2] == [s[0], s[1]];
      LowerOfParts(s);
      LowerDigit(s[0], s[1]);
    }
  }

  lemma NothingLower()
    ensures Lower([]) == []
  {
  }

  lemma {:induction false} HexDigits(b: Text)
    ensures |HexEncode(b)| == 2 * |b| && IsHex(HexEncode(b)) && Lower(HexEncode(b)) == HexEncode(b)
  {
    if b != [] {
      HexDigits(b[1..]);
      forall i | 0 <= i < |HexEncode(b)| ensures Nibble(HexEncode(b)[i]).Some? && !(65 <= HexEncode(b)[i] <= 70) {
        if i >= 2 {
          assert HexEncode(b)[i] == HexEncode(b[1..])[i - 2] &&
                 Lower(HexEncode(b[1..]))[i - 2] == HexEncode(b[1..])[i - 2];
        }
      }
    }
  }

  /** Every hash the producer writes comes back byte for byte. */
  lemma {:induction false} UnhexOfHex(b: Text)
    ensures Storable(HexEncode(b), |b|) && Unhex(HexEncode(b)) == b
  {
    HexDigits(b);
    if b != [] {
      UnhexOfHex(b[1..]);
      assert HexEncode(b)[2..] == HexEncode(b[1..]);
    }
  }

  lemma {:induction false} UnhexPrefix(s: Text, n: nat)
    requires |s| % 2 == 0 && IsHex(s) && 2 * n <= |s|
    ensures IsHex(s[..2 * n]) && Unhex(s[..2 * n]) == Unhex(s)[..n]
  {
    if n > 0 {
      UnhexPrefix(s[2..], n - 1);
      assert s[..2 * n][2..] == s[2..][..2 * (n - 1)];
    }
  }

  lemma {:induction false} UnhexAt(s: Text, i: nat)
    requires |s| % 2 == 0 && IsHex(s) && 2 * i + 1 < |s|
    ensures Unhex(s)[i] == 16 * Nibble(s[2 * i]).value + Nibble(s[2 * i + 1]).value
  {
    if i > 0 {
      UnhexAt(s[2..], i - 1);
    }
  }

  method HexDecodeInto(dst: array<byte>, at: nat, stride: nat, s: Text) returns (ok: bool)
    requires at + stride <= dst.Length
    modifies dst
    ensures ok <==> Storable(s, stride)
    ensures ok ==> dst[at..at + stride] == Unhex(s)[..stride]
    ensures dst[..at] == old(dst[..at]) && dst[at + stride..] == old(dst[at + stride..])
  {
    if |s| % 2 != 0 || |s| / 2 < stride {
      return false;
    }
    for i := 0 to stride
      invariant forall k | 0 <= k < 2 * i :: Nibble(s[k]).Some?
      invariant forall k | 0 <= k < i :: dst[at + k] == 16 * Nibble(s[2 * k]).value + Nibble(s[2 * k + 1]).value
      invariant dst[..at] == old(dst[..at]) && dst[at + stride..] == old(dst[at + stride..])
    {
      var hi, lo := Nibble(s[2 * i]), Nibble(s[2 * i + 1]);
      if hi.None? || lo.None? {
        return false;
      }
      dst[at + i] := 16 * hi.value + lo.value;
    }
    for i := 2 * stride to |s|
      invariant forall k | 0 <= k < i :: Nibble(s[k]).Some?
    {
      if Nibble(s[i]).None? {
        return false;
      }
    }
    forall k | 0 <= k < stride ensures dst[at + k] == Unhex(s)[k] {
      UnhexAt(s, k);
    }
    ok := true;
  }

  // ---- The column ----

  /** A node's hash can be stored, the cycle sentinel included. */
  predicate Accepted(hash: Text, stride: nat) {
    hash == [] || Storable(hash, stride)
  }

  function StoredBytes(hash: Text, stride: nat): (b: Text)
    requires Accepted(hash, stride)
    ensures |b| == stride
  {
    if hash == [] then Zeros(stride) else Unhex(hash)[..stride]
  }

  function Column(hashes: seq<Text>, stride: nat): (raw: Text)
    requires forall h | h in hashes :: Accepted(h, stride)
    ensures |raw| == |hashes| * stride
  {
    hide Accepted, StoredBytes;
    if hashes == [] then [] else
      var n := |hashes| - 1;
      assert hashes[n] in hashes;
      OneMore(n, stride);
      Column(hashes[..n], stride) + StoredBytes(hashes[n], stride)
  }

  lemma OneMore(n: nat, stride: nat)
    ensures 0 <= n * stride <= (n + 1) * stride == n * stride + stride
  {
    MulGrows(0, n, stride);
  }

  lemma {:induction false} ColumnAt(hashes: seq<Text>, stride: nat, i: nat)
    requires (forall h | h in hashes :: Accepted(h, stride)) && i < |hashes|
    ensures 0 <= i * stride <= (i + 1) * stride <= |Column(hashes, stride)|
    ensures hashes[i] in hashes
    ensures Column(hashes, stride)[i * stride..(i + 1) * stride] == StoredBytes(hashes[i], stride)
    decreases |hashes|
  {
    hide Accepted, StoredBytes;
    var n := |hashes| - 1;
    OneMore(i, stride);
    MulGrows(i + 1, |hashes|, stride);
    assert hashes[n] in hashes;
    var front := Column(hashes[..n], stride);
    if i < n {
      ColumnAt(hashes[..n], stride, i);
      assert hashes[..n][i] == hashes[i];
      SliceInFront(front, StoredBytes(hashes[n], stride), i * stride, (i + 1) * stride);
    } else {
      assert (front + StoredBytes(hashes[n], stride))[|front|..] == StoredBytes(hashes[n], stride);
    }
  }

  /** What is left of a hash: the sentinel itself, and of any other the leading
      digits in lower case. */
  function Kept(hash: Text, stride: nat): Text {
    if hash == [] || |hash| < 2 * stride then [] else Lower(hash[..2 * stride])
  }

  lemma KeptBytes(hash: Text, stride: nat)
    requires hash != [] && Storable(hash, stride)
    ensures HexEncode(StoredBytes(hash, stride)) == Kept(hash, stride)
  {
    UnhexPrefix(hash, stride);
    HexOfUnhex(hash[..2 * stride]);
  }

  /** One hash into its own, still empty slot. */
  method StoreHash(raw: array<byte>, at: nat, stride: nat, hash: Text) returns (ok: bool)
    requires at + stride <= raw.Length && forall k | at <= k < raw.Length :: raw[k] == 0
    modifies raw
    ensures ok <==> Accepted(hash, stride)
    ensures ok ==> raw[at..at + stride] == StoredBytes(hash, stride)
    ensures raw[..at] == old(raw[..at]) && forall k | at + stride <= k < raw.Length :: raw[k] == 0
  {
    hide Accepted, StoredBytes, Storable, Unhex;
    HowAccepted(hash, stride);
    if hash == [] {
      assert raw[at..at + stride] == Zeros(stride);
      return true;
    }
    ok := HexDecodeInto(raw, at, stride, hash);
    forall k | at + stride <= k < raw.Length ensures raw[k] == 0 {
      assert raw[k] == raw[at + stride..][k - at - stride];
    }
  }

  /** All hashes, in place, unless one of them cannot be stored. */
  method EncodeHashes(hashes: seq<Text>, stride: nat) returns (r: Option<Text>)
    ensures r.Some? <==> forall h | h in hashes :: Accepted(h, stride)
    ensures r.Some? ==> r.value == Column(hashes, stride)
  {
    hide Accepted, StoredBytes;
    MulGrows(0, |hashes|, stride);
    var raw := new byte[|hashes| * stride](i => 0);
    for i := 0 to |hashes|
      invariant 0 <= i * stride <= raw.Length
      invariant forall h | h in hashes[..i] :: Accepted(h, stride)
      invariant raw[..i * stride] == Column(hashes[..i], stride)
      invariant forall k | i * stride <= k < raw.Length :: raw[k] == 0
    {
      var at := i * stride;
      OneMore(i, stride);
      MulGrows(i + 1, |hashes|, stride);
      assert hashes[..i + 1] == hashes[..i] + [hashes[i]] && hashes[i] in hashes;
      var ok := StoreHash(raw, at, stride, hashes[i]);
      if !ok {
        return None;
      }
      assert raw[..at + stride] == raw[..at] + raw[at..at + stride];
      assert hashes[..i + 1][..i] == hashes[..i];
    }
    assert hashes[..|hashes|] == hashes;
    assert raw[..|hashes| * stride] == raw[..];
    r := Some(raw[..]);
  }

  lemma HowAccepted(hash: Text, stride: nat)
    ensures Accepted(hash, stride) <==> hash == [] || Storable(hash, stride)
    ensures Accepted(hash, stride) ==>
      StoredBytes(hash, stride) == if hash == [] then Zeros(stride) else Unhex(hash)[..stride]
  {
  }
}
