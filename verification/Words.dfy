/** Fixed-width numbers, least significant byte first. */
module Words {
  import opened ByteStrings
  import opened Varint

  function Pow256(n: nat): (p: nat)
    ensures p > 0
  {
    if n == 0 then 1 else 256 * Pow256(n - 1)
  }

  function PutWord(v: nat, n: nat): (b: Text)
    ensures |b| == n
  {
    if n == 0 then [] else [v % 256] + PutWord(v / 256, n - 1)
  }

  function GetWord(b: Text): (v: nat)
    ensures v < Pow256(|b|)
  {
    if b == [] then 0 else b[0] + 256 * GetWord(b[1..])
  }

  lemma {:induction false} WordRoundTrip(v: nat, n: nat)
    requires v < Pow256(n)
    ensures GetWord(PutWord(v, n)) == v
    decreases n
  {
    if n > 0 {
      WordRoundTrip(v / 256, n - 1);
      assert PutWord(v, n)[1..] == PutWord(v / 256, n - 1);
    }
  }

  lemma Capacities()
    ensures Pow256(2) == 0x1_0000 && Pow256(4) == TWO_32 && Pow256(8) == TWO_64
  {
    assert Pow256(1) == 256 && Pow256(3) == 0x100_0000;
    assert Pow256(5) == 0x100_0000_0000 && Pow256(6) == 0x1_0000_0000_0000 && Pow256(7) == 0x100_0000_0000_0000;
  }
}
