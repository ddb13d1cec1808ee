/** The derived sorted view of `src/use_sorted.rs`. Each entry point models
    the body of its `Signal::derive` closure: read the source's current
    container, clone it, sort the clone in place with the chosen strategy
    (natural order, a comparator, or a key function), and yield the clone.
    The source container is only read. */
module SortedView {
  import opened Ordering
  import opened StableSort

  /** The recompute step all three entry points share: a fresh copy of the
      source, stably sorted by `cmp`. */
  method SortedClone<T(!new)>(source: array<T>, cmp: (T, T) -> Ordering) returns (sorted: array<T>)
    requires IsTotalPreorder(cmp)
    ensures fresh(sorted)
    ensures source[..] == old(source[..])
    ensures SortedBy(sorted[..], cmp)
    ensures multiset(sorted[..]) == multiset(source[..])
    ensures StableBy(source[..], sorted[..], cmp)
    ensures sorted[..] == Sort(source[..], cmp)
  {
    sorted := new T[source.Length](k reads source requires 0 <= k < source.Length => source[k]);
    assert sorted[..] == source[..];
    InsertionSort(sorted, cmp);
  }

  // ----- Natural order: `use_sorted` with `T: Ord` -----

  /** Under a total order whose `Equal` is identity the class of `x` is just
      the copies of `x`. */
  lemma {:induction false} ClassIsCopies<T(!new)>(s: seq<T>, x: T, cmp: (T, T) -> Ordering)
    requires IsTotalOrder(cmp)
    ensures EquivTo(s, x, cmp) == seq(multiset(s)[x], _ => x)
  {
    if s != [] {
      PreorderLaws(cmp, x, x, x);
      ClassIsCopies(s[1..], x, cmp);
      assert s == [s[0]] + s[1..];
      assert multiset(s)[x] == (if s[0] == x then 1 else 0) + multiset(s[1..])[x];
    }
  }

  /** When `Equal` is identity, stability holds of every permutation, so the
      result of `use_sorted` is exactly the sorted permutation of the snapshot: a
      sequence is `Sort(s, cmp)` if and only if it is sorted by `cmp` and has
      the elements of `s`. */
  lemma TotalOrderSortCharacterized<T(!new)>(s: seq<T>, r: seq<T>, cmp: (T, T) -> Ordering)
    requires IsTotalOrder(cmp)
    ensures SortedBy(r, cmp) && multiset(r) == multiset(s) <==> r == Sort(s, cmp)
  {
    SortCharacterized(s, r, cmp);
    if SortedBy(r, cmp) && multiset(r) == multiset(s) {
      forall x
        ensures EquivTo(r, x, cmp) == EquivTo(s, x, cmp)
      {
        ClassIsCopies(r, x, cmp);
        ClassIsCopies(s, x, cmp);
      }
    }
  }

  /** Every element is at most every later one. */
  predicate Ascending(s: seq<int>) {
    forall i, j | 0 <= i < j < |s| :: s[i] <= s[j]
  }

  /** The same for the natural order of integers, where sorted means
      ascending. */
  lemma NaturalSortCharacterized(s: seq<int>, r: seq<int>)
    ensures Ascending(r) && multiset(r) == multiset(s) <==> r == Sort(s, IntCmp)
  {
    IntCmpIsTotalOrder();
    TotalOrderSortCharacterized(s, r, IntCmp);
    assert Ascending(r) <==> SortedBy(r, IntCmp);
  }

  /** `use_sorted(iterable)` (src/use_sorted.rs:77-90). `T: Ord` is passed as
      its comparison `cmp`, a total preorder: `Ord` ties `Equal` to the type's
      own `Eq`, which may be coarser than identity, so stability matters. */
  method UseSorted<T(!new)>(source: array<T>, cmp: (T, T) -> Ordering) returns (sorted: array<T>)
    requires IsTotalPreorder(cmp)
    ensures fresh(sorted)
    ensures source[..] == old(source[..])
    ensures SortedBy(sorted[..], cmp)
    ensures multiset(sorted[..]) == multiset(source[..])
    ensures StableBy(source[..], sorted[..], cmp)
    ensures sorted[..] == Sort(source[..], cmp)
  {
    sorted := SortedClone(source, cmp);
  }

  // ----- Comparator: `use_sorted_by` -----

  /** `use_sorted_by(iterable, cmp_fn)` (src/use_sorted.rs:93-106). */
  method UseSortedBy<T(!new)>(source: array<T>, cmp: (T, T) -> Ordering) returns (sorted: array<T>)
    requires IsTotalPreorder(cmp)
    ensures fresh(sorted)
    ensures source[..] == old(source[..])
    ensures forall k | 0 <= k < sorted.Length - 1 :: cmp(sorted[k], sorted[k + 1]) != Greater
    ensures SortedBy(sorted[..], cmp)
    ensures multiset(sorted[..]) == multiset(source[..])
    ensures StableBy(source[..], sorted[..], cmp)
    ensures sorted[..] == Sort(source[..], cmp)
  {
    sorted := SortedClone(source, cmp);
    SortedByAdjacent(sorted[..], cmp);
  }

  // ----- Key function: `use_sorted_by_key` with `K: Ord`, on integer keys -----

  /** Keys never decrease along `s`. */
  predicate SortedByKey<T>(s: seq<T>, key: T -> int) {
    forall i, j | 0 <= i < j < |s| :: key(s[i]) <= key(s[j])
  }

  /** The elements of `s` whose key is `k`, in their order in `s`. */
  function WithKey<T>(s: seq<T>, key: T -> int, k: int): (r: seq<T>)
    ensures |r| <= |s|
    ensures forall y | y in r :: y in s && key(y) == k
    ensures forall y | y in s && key(y) == k :: y in r
  {
    if s == [] then []
    else (if key(s[0]) == k then [s[0]] else []) + WithKey(s[1..], key, k)
  }

  /** Elements with equal keys keep their order from `s`. */
  ghost predicate StableByKey<T(!new)>(s: seq<T>, r: seq<T>, key: T -> int) {
    forall k :: WithKey(r, key, k) == WithKey(s, key, k)
  }

  lemma {:induction false} WithKeyIsClass<T>(s: seq<T>, key: T -> int, x: T)
    ensures WithKey(s, key, key(x)) == EquivTo(s, x, KeyCmp(key))
  {
    if s != [] {
      WithKeyIsClass(s[1..], key, x);
    }
  }

  lemma {:induction false} WithAbsentKey<T>(s: seq<T>, key: T -> int, k: int)
    requires forall y | y in s :: key(y) != k
    ensures WithKey(s, key, k) == []
  {
    if s != [] {
      WithAbsentKey(s[1..], key, k);
    }
  }

  /** The key-based contract of `sort_by_key` is the comparator-based
      contract of `sort_by` for the key comparator, in both directions. */
  lemma KeyContractIsComparatorContract<T(!new)>(s: seq<T>, r: seq<T>, key: T -> int)
    ensures SortedByKey(r, key) <==> SortedBy(r, KeyCmp(key))
    ensures StableByKey(s, r, key) <==> StableBy(s, r, KeyCmp(key))
  {
    if StableByKey(s, r, key) {
      forall x
        ensures EquivTo(r, x, KeyCmp(key)) == EquivTo(s, x, KeyCmp(key))
      {
        WithKeyIsClass(r, key, x);
        WithKeyIsClass(s, key, x);
      }
    }
    if StableBy(s, r, KeyCmp(key)) {
      forall k
        ensures WithKey(r, key, k) == WithKey(s, key, k)
      {
        if y :| y in r + s && key(y) == k {
          WithKeyIsClass(r, key, y);
          WithKeyIsClass(s, key, y);
        } else {
          WithAbsentKey(r, key, k);
          WithAbsentKey(s, key, k);
        }
      }
    }
  }

  /** `sort_by_key(k)` and `sort_by(|a, b| k(a).cmp(&k(b)))` agree: a
      sequence meets the key contract for `s` if and only if it is the stable
      sort of `s` by the key comparator. */
  lemma SortByKeyIsSortBy<T(!new)>(s: seq<T>, r: seq<T>, key: T -> int)
    ensures SortedByKey(r, key) && StableByKey(s, r, key) <==> r == Sort(s, KeyCmp(key))
  {
    KeyCmpIsTotalPreorder(key);
    KeyContractIsComparatorContract(s, r, key);
    SortCharacterized(s, r, KeyCmp(key));
  }

  /** When all elements of `s` have different keys, `WithKey` picks out the
      copies of the one element with that key. */
  lemma {:induction false} WithUniqueKeyIsCopies<T>(s: seq<T>, key: T -> int, y: T)
    requires forall z | z in s && key(z) == key(y) :: z == y
    ensures WithKey(s, key, key(y)) == seq(multiset(s)[y], _ => y)
  {
    if s != [] {
      WithUniqueKeyIsCopies(s[1..], key, y);
      assert s == [s[0]] + s[1..];
      assert multiset(s)[y] == (if s[0] == y then 1 else 0) + multiset(s[1..])[y];
    }
  }

  /** With pairwise different keys stability constrains nothing more, so the
      result of `sort_by_key` is the one permutation of `s` whose keys never
      decrease. */
  lemma DistinctKeysSortCharacterized<T(!new)>(s: seq<T>, r: seq<T>, key: T -> int)
    requires forall y, z | y in s && z in s && key(y) == key(z) :: y == z
    ensures SortedByKey(r, key) && multiset(r) == multiset(s) <==> r == Sort(s, KeyCmp(key))
  {
    SortByKeyIsSortBy(s, r, key);
    if SortedByKey(r, key) && multiset(r) == multiset(s) {
      forall k
        ensures WithKey(r, key, k) == WithKey(s, key, k)
      {
        if y :| y in s && key(y) == k {
          forall z | z in r && key(z) == key(y)
            ensures z == y
          {
            assert z in multiset(s);
          }
          WithUniqueKeyIsCopies(r, key, y);
          WithUniqueKeyIsCopies(s, key, y);
        } else {
          forall z | z in r
            ensures key(z) != k
          {
            assert z in multiset(s);
          }
          WithAbsentKey(r, key, k);
          WithAbsentKey(s, key, k);
        }
      }
    }
  }

  /** `use_sorted_by_key(iterable, key_fn)` (src/use_sorted.rs:109-123). */
  method UseSortedByKey<T(!new)>(source: array<T>, key: T -> int) returns (sorted: array<T>)
    ensures fresh(sorted)
    ensures source[..] == old(source[..])
    ensures SortedByKey(sorted[..], key)
    ensures multiset(sorted[..]) == multiset(source[..])
    ensures StableByKey(source[..], sorted[..], key)
    ensures sorted[..] == Sort(source[..], KeyCmp(key))
  {
    KeyCmpIsTotalPreorder(key);
    sorted := SortedClone(source, KeyCmp(key));
    SortByKeyIsSortBy(source[..], sorted[..], key);
  }
}
