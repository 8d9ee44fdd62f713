/** Byte strings in ascending order, as `sort.Strings` leaves them. */
module TextSort {
  import opened ByteStrings
  import opened Sorting

  function SortTexts(texts: seq<Text>): (sorted: seq<Text>)
    ensures multiset(sorted) == multiset(texts)
  {
    Sort((a, b) => LessEq(a, b), texts)
  }

  lemma SortedTexts(texts: seq<Text>)
    ensures Sorted((a, b) => LessEq(a, b), SortTexts(texts))
  {
    LessEqIsTotalOrder();
    SortSorted((a, b) => LessEq(a, b), texts);
  }

  /** Sorting forgets the order and nothing else. */
  lemma SortForgetsOrder(s: seq<Text>, t: seq<Text>)
    ensures SortTexts(s) == SortTexts(t) <==> multiset(s) == multiset(t)
  {
    if multiset(s) == multiset(t) {
      LessEqIsTotalOrder();
      SortedTexts(s);
      SortedTexts(t);
      SortedUnique((a, b) => LessEq(a, b), SortTexts(s), SortTexts(t));
    }
  }
}
