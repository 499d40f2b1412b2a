/** Counting elements of sequences without repetitions. */
module Counting {

  /** Each element carries its own position. */
  ghost predicate Numbered<T>(items: seq<T>, id: T -> nat) {
    forall k :: 0 <= k < |items| ==> id(items[k]) == k
  }

  lemma NumberedNext<T>(items: seq<T>, id: T -> nat, x: T)
    requires Numbered(items, id) && id(x) == |items|
    ensures Numbered(items + [x], id)
  {}

  lemma {:induction false} NumberedCounts<T>(items: seq<T>, id: T -> nat, x: T)
    requires Numbered(items, id)
    ensures multiset(items)[x] == if x in items then 1 else 0
  {
    if items != [] {
      var n := |items| - 1;
      NumberedCounts(items[..n], id, x);
      assert items == items[..n] + [items[n]];
    }
  }
}
