/** Single bits of unsigned words, with `w & (1 << k) != 0` and `w | 1 << k`
    spelled out arithmetically. */
module Bits {

  predicate Bit(w: int, k: nat)
    decreases k
  {
    if k == 0 then w % 2 == 1 else Bit(w / 2, k - 1)
  }

  function SetBit(w: int, k: nat): int
    decreases k
  {
    if k == 0 then w - w % 2 + 1 else 2 * SetBit(w / 2, k - 1) + w % 2
  }

  /** Setting a bit changes that bit and no other. */
  lemma {:induction false} SetBitExact(w: int, k: nat, j: nat)
    ensures Bit(SetBit(w, k), j) <==> j == k || Bit(w, j)
    decreases k
  {
    if k == 0 {
      assert (w - w % 2 + 1) / 2 == w / 2;
    } else if j > 0 {
      assert SetBit(w, k) / 2 == SetBit(w / 2, k - 1);
      SetBitExact(w / 2, k - 1, j - 1);
    }
  }

  /** A word of `m` bits stays one. */
  lemma {:induction false} SetBitInRange(w: int, k: nat, m: nat)
    requires k < m && 0 <= w < Power2(m)
    ensures 0 <= SetBit(w, k) < Power2(m)
    decreases k
  {
    if k > 0 {
      SetBitInRange(w / 2, k - 1, m - 1);
    } else {
      assert Power2(m) == 2 * Power2(m - 1);
    }
  }

  function Power2(m: nat): (p: nat)
    ensures p > 0
  {
    if m == 0 then 1 else 2 * Power2(m - 1)
  }

  lemma {:induction false} NoBitsInZero(k: nat)
    ensures !Bit(0, k)
  {
    if k > 0 {
      NoBitsInZero(k - 1);
    }
  }

  /** Bit `i` of a bitset stored `width` bits a word. */
  predicate Member(words: seq<int>, width: nat, i: nat)
    requires width > 0
  {
    i / width < |words| && Bit(words[i / width], i % width)
  }

  lemma MemberAfterSet(words: seq<int>, width: nat, i: nat, j: nat)
    requires width > 0 && i / width < |words|
    ensures Member(words[i / width := SetBit(words[i / width], i % width)], width, j) <==>
            j == i || Member(words, width, j)
  {
    hide Bit, SetBit;
    SetBitExact(words[i / width], i % width, j % width);
    SameSlot(i, j, width);
  }

  lemma SameSlot(i: nat, j: nat, width: nat)
    requires width > 0
    ensures i / width == j / width && i % width == j % width ==> i == j
  {
    assert i == (i / width) * width + i % width;
    assert j == (j / width) * width + j % width;
  }
}
