/** Comparison results and the laws a comparator must obey for a stable sort to
    have a specified outcome: the shape of Rust's `std::cmp::Ordering`, `Ord`
    and the `|a, b| key(a).cmp(&key(b))` comparator derived from a key function. */
module Ordering {

  /** The outcome of comparing two values, as `std::cmp::Ordering`. */
  datatype Ordering = Less | Equal | Greater {

    /** The outcome of the same comparison with the operands swapped. */
    function Reverse(): Ordering
    {
      match this
      case Less => Greater
      case Equal => Equal
      case Greater => Less
    }
  }

  /** `cmp` orders every pair of values consistently: swapping the operands
      reverses the outcome, and "not greater" is transitive. Equal elements
      need not be identical (a comparator on one field of a record). This is
      what `slice::sort_by` asks of its comparator. */
  ghost predicate IsTotalPreorder<T(!new)>(cmp: (T, T) -> Ordering) {
    && (forall a, b :: cmp(b, a) == cmp(a, b).Reverse())
    && (forall a, b, c :: cmp(a, b) != Greater && cmp(b, c) != Greater ==> cmp(a, c) != Greater)
  }

  /** A total preorder whose `Equal` is identity: an `Ord` whose `Eq` is
      structural equality, as for integers. */
  ghost predicate IsTotalOrder<T(!new)>(cmp: (T, T) -> Ordering) {
    && IsTotalPreorder(cmp)
    && (forall a, b :: cmp(a, b) == Equal ==> a == b)
  }

  /** `Ord::cmp` on integers (the natural order of `i32`, `u16`, ...). */
  function IntCmp(a: int, b: int): Ordering {
    if a < b then Less else if a == b then Equal else Greater
  }

  /** The comparator `|a, b| key(a).cmp(&key(b))` that `sort_by_key` sorts by. */
  function KeyCmp<T>(key: T -> int): (T, T) -> Ordering {
    (a: T, b: T) => IntCmp(key(a), key(b))
  }

  lemma KeyCmpAt<T>(key: T -> int, a: T, b: T)
    ensures KeyCmp(key)(a, b) == IntCmp(key(a), key(b))
  {
  }

  /** Under a total preorder, `Equal` is an equivalence relation and the
      strict and non-strict orders chain as expected. */
  lemma PreorderLaws<T(!new)>(cmp: (T, T) -> Ordering, a: T, b: T, c: T)
    requires IsTotalPreorder(cmp)
    ensures cmp(a, a) == Equal
    ensures cmp(a, b) == Equal && cmp(b, c) == Equal ==> cmp(a, c) == Equal
    ensures cmp(a, b) == Less && cmp(b, c) != Greater ==> cmp(a, c) == Less
    ensures cmp(a, b) != Greater && cmp(b, c) == Less ==> cmp(a, c) == Less
  {
    assert cmp(a, a) == cmp(a, a).Reverse();
  }

  /** The natural order on integers is a total order. */
  lemma IntCmpIsTotalOrder()
    ensures IsTotalOrder(IntCmp)
  {
  }

  /** Comparing by an integer key is a total preorder, whatever the key; it is a
      total order only when the key is injective. */
  lemma KeyCmpIsTotalPreorder<T(!new)>(key: T -> int)
    ensures IsTotalPreorder(KeyCmp(key))
    ensures forall a, b :: KeyCmp(key)(a, b) == Equal <==> key(a) == key(b)
    ensures forall a, b :: KeyCmp(key)(a, b) != Greater <==> key(a) <= key(b)
  {
  }
}
