/** Comparison functions as the containers use them: only the sign of the result counts. */
module Ordering {
  type Item = int

  type Comparison = (Item, Item) -> int

  /** `a` sorts at or before `b`. */
  predicate Leq(cmp: Comparison, a: Item, b: Item) {
    cmp(a, b) <= 0
  }

  /** A total preorder with consistent signs. Distinct items may compare equal. */
  ghost predicate Comparator(cmp: Comparison) {
    && (forall a, b {:trigger Leq(cmp, a, b)} :: Leq(cmp, a, b) <==> cmp(b, a) >= 0)
    && (forall a, b, c :: Leq(cmp, a, b) && Leq(cmp, b, c) ==> Leq(cmp, a, c))
  }

  /** Subtraction is a comparison function. */
  lemma ByDifference()
    ensures Comparator((a, b) => a - b)
  {
  }

  lemma Signs(cmp: Comparison, a: Item, b: Item)
    requires Comparator(cmp)
    ensures cmp(a, b) < 0 <==> !Leq(cmp, b, a)
    ensures cmp(a, b) > 0 <==> !Leq(cmp, a, b)
    ensures cmp(a, b) == 0 <==> Leq(cmp, a, b) && Leq(cmp, b, a)
  {
  }
}
