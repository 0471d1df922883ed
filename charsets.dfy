/**
  Counting the characters of a fixed table: a list of characters in strictly
  increasing order holds no character twice, so the set of its elements has
  as many members as the list has entries.
 */
module CharSets {

  predicate Increasing(xs: seq<char>) {
    forall i | 0 < i < |xs| :: xs[i - 1] < xs[i]
  }

  function Elements(xs: seq<char>): set<char> {
    set x | x in xs
  }

  /** In an increasing list every entry before the last is below the last. */
  lemma {:induction false} IncreasingBelowLast(xs: seq<char>)
    requires Increasing(xs) && |xs| > 0
    ensures forall j | 0 <= j < |xs| - 1 :: xs[j] < xs[|xs| - 1]
  {
    if |xs| > 1 {
      IncreasingBelowLast(xs[..|xs| - 1]);
    }
  }

  /** An increasing list has as many distinct elements as entries. */
  lemma {:induction false} IncreasingElementsCount(xs: seq<char>)
    requires Increasing(xs)
    ensures |Elements(xs)| == |xs|
  {
    if xs != [] {
      var init, last := xs[..|xs| - 1], xs[|xs| - 1];
      IncreasingElementsCount(init);
      IncreasingBelowLast(xs);
      assert Elements(xs) == Elements(init) + {last};
      assert last !in Elements(init);
    }
  }
}
