/** The three flags of every node, as bitsets one after the other. */
module FlagColumn {
  import opened Wrappers
  import opened ByteStrings
  import opened Bits
  import opened ListColumns

  function ByteCount(n: nat): nat {
    (n + 7) / 8
  }

  function SetBitOf(w: byte, k: nat): byte
    requires k < 8
  {
    EightBits();
    SetBitInRange(w, k, 8);
    SetBit(w, k)
  }

  lemma EightBits()
    ensures Power2(8) == 256
  {
    assert Power2(4) == 16;
  }

  /** The first `k` flags in a bitset of all of them. */
  function Packed(flags: seq<bool>, k: nat): (bits: seq<byte>)
    requires k <= |flags|
    ensures |bits| == ByteCount(|flags|)
  {
    if k == 0 then Zeros(ByteCount(|flags|))
    else
      var before := Packed(flags, k - 1);
      if flags[k - 1] then before[(k - 1) / 8 := SetBitOf(before[(k - 1) / 8], (k - 1) % 8)] else before
  }

  function Pack(flags: seq<bool>): Text {
    Packed(flags, |flags|)
  }

  lemma {:induction false} PackedMembers(flags: seq<bool>, k: nat, j: nat)
    requires k <= |flags|
    ensures Member(Packed(flags, k), 8, j) <==> j < k && flags[j]
  {
    hide Bit, SetBit;
    if k == 0 {
      NoBitsInZero(j % 8);
    } else {
      PackedMembers(flags, k - 1, j);
      MemberAfterSet(Packed(flags, k - 1), 8, k - 1, j);
    }
  }

  /** The bits say exactly which flags are up. */
  lemma PackIsExact(flags: seq<bool>, j: nat)
    ensures Member(Pack(flags), 8, j) <==> j < |flags| && flags[j]
  {
    PackedMembers(flags, |flags|, j);
  }

  // ---- A bitset is its bits ----

  lemma {:induction false} WordOfBits(w: int, v: int, m: nat)
    requires 0 <= w < Power2(m) && 0 <= v < Power2(m)
    requires forall k | 0 <= k < m :: Bit(w, k) <==> Bit(v, k)
    ensures w == v
  {
    if m > 0 {
      assert Bit(w, 0) <==> Bit(v, 0);
      forall k | 0 <= k < m - 1 ensures Bit(w / 2, k) <==> Bit(v / 2, k) {
        assert Bit(w, k + 1) <==> Bit(v, k + 1);
      }
      WordOfBits(w / 2, v / 2, m - 1);
    }
  }

  lemma BytesOfBits(a: seq<byte>, b: seq<byte>)
    requires |a| == |b| && forall j: nat | j < 8 * |a| :: Member(a, 8, j) <==> Member(b, 8, j)
    ensures a == b
  {
    forall i | 0 <= i < |a| ensures a[i] == b[i] {
      hide Bit;
      EightBits();
      forall k | 0 <= k < 8 ensures Bit(a[i], k) <==> Bit(b[i], k) {
        var j := 8 * i + k;
        assert j / 8 == i && j % 8 == k;
        assert Member(a, 8, j) <==> Member(b, 8, j);
      }
      WordOfBits(a[i], b[i], 8);
    }
  }

  // ---- Writing, in shards ----

  /** One shard: the flags of nodes `lo` up to `hi`, in place. */
  method FillShard(bits: array<byte>, flags: seq<bool>, lo: nat, hi: nat)
    requires bits.Length == ByteCount(|flags|) && lo <= hi <= |flags|
    modifies bits
    ensures forall j: nat :: Member(bits[..], 8, j) <==> old(Member(bits[..], 8, j)) || (lo <= j < hi && flags[j])
  {
    hide Bit, SetBit;
    for i := lo to hi
      invariant forall j: nat :: Member(bits[..], 8, j) <==> old(Member(bits[..], 8, j)) || (lo <= j < i && flags[j])
    {
      if flags[i] {
        ghost var was := bits[..];
        bits[i / 8] := SetBitOf(bits[i / 8], i % 8);
        assert bits[..] == was[i / 8 := SetBit(was[i / 8], i % 8)];
        forall j: nat ensures Member(bits[..], 8, j) <==> j == i || Member(was, 8, j) {
          MemberAfterSet(was, 8, i, j);
        }
      }
    }
  }

  lemma InShard(n: nat, len: nat, s: nat, j: nat)
    requires len > 0 && j < n && s * len < n
    ensures j / len == s <==> s * len <= j < if s * len + len > n then n else s * len + len
  {
    if s * len <= j < s * len + len {
      Quotient(j, len, s, j - s * len);
    }
  }

  /** Exactly the flags of the shards not in `starts` are up. */
  ghost predicate FilledBut(bits: seq<byte>, flags: seq<bool>, len: nat, starts: set<nat>)
    requires len > 0
  {
    forall j: nat :: Member(bits, 8, j) <==> j < |flags| && flags[j] && j / len !in starts
  }

  lemma OneShardMore(was: seq<byte>, bits: seq<byte>, flags: seq<bool>, len: nat, starts: set<nat>, s: nat, lo: nat,
                     hi: nat)
    requires len > 0 && s in starts && lo == s * len < |flags| && hi == if lo + len > |flags| then |flags| else lo + len
    requires FilledBut(was, flags, len, starts)
    requires forall j: nat :: Member(bits, 8, j) <==> Member(was, 8, j) || (lo <= j < hi && flags[j])
    ensures FilledBut(bits, flags, len, starts - {s})
  {
    hide Member;
    forall j: nat ensures Member(bits, 8, j) <==> j < |flags| && flags[j] && j / len !in starts - {s} {
      if j < |flags| {
        InShard(|flags|, len, s, j);
      }
    }
  }

  lemma StartKnown(n: nat, len: nat, starts: set<nat>, j: nat)
    requires len > 0 && j < n && starts == set s: nat | s < n && s * len < n
    ensures j / len in starts
  {
    StartsInside(j, len);
  }

  lemma NothingFilled(flags: seq<bool>, len: nat, starts: set<nat>)
    requires len > 0 && forall j: nat | j < |flags| :: j / len in starts
    ensures FilledBut(Zeros(ByteCount(|flags|)), flags, len, starts)
  {
    hide Member;
    forall j: nat ensures Member(Zeros(ByteCount(|flags|)), 8, j) <==> j < |flags| && flags[j] && j / len !in starts {
      NoneYet(flags, j);
    }
  }

  lemma AllFilled(bits: seq<byte>, flags: seq<bool>, len: nat)
    requires len > 0 && |bits| == ByteCount(|flags|) && FilledBut(bits, flags, len, {})
    ensures bits == Pack(flags)
  {
    hide Member;
    forall j: nat | j < 8 * |bits| ensures Member(bits, 8, j) <==> Member(Pack(flags), 8, j) {
      PackIsExact(flags, j);
    }
    BytesOfBits(bits, Pack(flags));
  }

  /** The shards in whatever order they are run: the bitset of one serial pass. */
  method EncodeFlags(flags: seq<bool>, shardLen: nat) returns (bits: array<byte>)
    requires shardLen > 0
    ensures fresh(bits) && bits[..] == Pack(flags)
  {
    hide Member, Pack, ByteCount, FilledBut;
    var n := |flags|;
    bits := new byte[ByteCount(n)](i => 0);
    assert bits[..] == Zeros(ByteCount(n));
    var starts: set<nat> := set s: nat | s < n && s * shardLen < n;
    forall j: nat | j < n ensures j / shardLen in starts {
      StartKnown(n, shardLen, starts, j);
    }
    NothingFilled(flags, shardLen, starts);
    while starts != {}
      invariant forall s | s in starts :: s < n && s * shardLen < n
      invariant FilledBut(bits[..], flags, shardLen, starts)
    {
      var s :| s in starts;
      var lo := s * shardLen;
      var hi := if lo + shardLen > n then n else lo + shardLen;
      ghost var was := bits[..];
      FillShard(bits, flags, lo, hi);
      OneShardMore(was, bits[..], flags, shardLen, starts, s, lo, hi);
      starts := starts - {s};
    }
    AllFilled(bits[..], flags, shardLen);
  }

  lemma NoneYet(flags: seq<bool>, j: nat)
    ensures !Member(Zeros(ByteCount(|flags|)), 8, j)
  {
    NoBitsInZero(j % 8);
  }

  lemma StartsInside(j: nat, len: nat)
    requires len > 0
    ensures j / len <= j && j / len * len <= j
  {
    assert j == j / len * len + j % len;
    MulAtLeast(j / len, len);
  }

  lemma MulAtLeast(q: nat, len: nat)
    requires len > 0
    ensures q * len >= q
  {
    assert q * len == q + q * (len - 1);
  }

  // ---- Reading ----

  datatype Flags = Flags(root: Option<Text>, external: Option<Text>, hashEmpty: Option<Text>)

  function DecodeFlags(data: Text, n: nat): (f: Flags) {
    var nb := ByteCount(n);
    if data == [] then Flags(None, None, None)
    else if |data| < nb then Flags(Some(data), None, None)
    else if |data| < 2 * nb then Flags(Some(data[..nb]), Some(data[nb..]), None)
    else if |data| < 3 * nb then Flags(Some(data[..nb]), Some(data[nb..2 * nb]), None)
    else Flags(Some(data[..nb]), Some(data[nb..2 * nb]), Some(data[2 * nb..3 * nb]))
  }

  /** `bits != nil && bits[i/8] & (1 << i%8) != 0`. */
  predicate Up(bits: Option<Text>, i: nat) {
    bits.Some? && Member(bits.value, 8, i)
  }

  /** Every node gets its three flags back. */
  lemma FlagsRoundTrip(roots: seq<bool>, externals: seq<bool>, empties: seq<bool>, i: nat)
    requires |roots| == |externals| == |empties| && i < |roots|
    ensures var f := DecodeFlags(Pack(roots) + Pack(externals) + Pack(empties), |roots|);
      (Up(f.root, i) <==> roots[i]) && (Up(f.external, i) <==> externals[i]) && (Up(f.hashEmpty, i) <==> empties[i])
  {
    hide Member;
    var a, b, c := Pack(roots), Pack(externals), Pack(empties);
    var nb := ByteCount(|roots|);
    var data := a + b + c;
    assert nb > 0 && |a| == |b| == |c| == nb;
    assert data[..nb] == a && data[nb..2 * nb] == b && data[2 * nb..3 * nb] == c;
    PackIsExact(roots, i);
    PackIsExact(externals, i);
    PackIsExact(empties, i);
  }
}
