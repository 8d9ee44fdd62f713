/** Sums of lists of numbers. */
module Totals {

  function Sum(s: seq<int>): int {
    if s == [] then 0 else Sum(s[..|s| - 1]) + s[|s| - 1]
  }

  lemma {:induction false} SumFront(s: seq<int>)
    requires s != []
    ensures Sum(s) == s[0] + Sum(s[1..])
  {
    if |s| > 1 {
      var front := s[..|s| - 1];
      SumFront(front);
      assert front[1..] == s[1..][..|s| - 2];
    } else {
      assert s[..0] == [] && s[1..] == [];
    }
  }

  /** Sums of numbers that are not negative only grow. */
  lemma {:induction false} SumGrows(s: seq<int>, d: nat, e: nat)
    requires d <= e <= |s| && forall i | 0 <= i < |s| :: s[i] >= 0
    ensures 0 <= Sum(s[..d]) <= Sum(s[..e])
  {
    if d < e {
      SumGrows(s, d, e - 1);
      assert s[..e][..e - 1] == s[..e - 1];
    } else if e > 0 {
      assert s[..e][..e - 1] == s[..e - 1];
      SumGrows(s, e - 1, e - 1);
    }
  }
}
