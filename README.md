# Sorted view of a reactive container (`use_sorted`)

This project models `src/use_sorted.rs` of leptos-use. The file has three
entry points: `use_sorted`, `use_sorted_by` and `use_sorted_by_key`. Each one
turns a container signal into a derived signal. That derived signal
recomputes the same way every time: it reads the current contents, clones
them, sorts the clone in place and yields it. The sort is `slice::sort`,
`sort_by` or `sort_by_key`, depending on the entry point.

The model gives that recompute step as imperative Dafny:

- The source container is an `array<T>`, and it is only read.
- `SortedView.SortedClone` copies it into a fresh array.
- `StableSort.InsertionSort` stable-sorts the copy in place.

The sort's result is specified in two ways, and the model proves it meets both.

- The contract of Rust's stable sort. The result is sorted with respect to
  the comparator (`SortedBy`) and is a permutation of the input (multiset
  equality). It is also stable: for every value `x`, the elements that
  compare `Equal` to `x` appear in the same order (`StableBy`, via
  `EquivTo`).
- The functional reference sort `StableSort.Sort`, an insertion sort on
  sequences.

`SortedSameClassesUnique` proves that any two sequences that are sorted and
have the same `Equal` classes are identical. So the two specifications
describe one and the same result (`SortCharacterized`).

How the three entry points are modelled:

- **Natural order.** `T: Ord` is passed to `UseSorted` as its comparison
  `cmp`, a total preorder (`IsTotalPreorder`). `Ord` ties `Equal` to the
  type's own `Eq`, which may compare only part of a value, so the view is
  stated to be stable as well as sorted. When `Equal` is structural
  equality (`IsTotalOrder`, as for the `i32` of line 21),
  `TotalOrderSortCharacterized` shows that "sorted permutation" already pins
  down the result. The documentation's example uses the integer order
  `IntCmp`.
- **Key function.** `K: Ord` is modelled on `int`. The comparator
  `|a, b| key(a).cmp(&key(b))` is `Ordering.KeyCmp(key)`.
  `SortByKeyIsSortBy` proves that the key contract (keys never decrease,
  equal keys keep their order) means exactly "stable sort by `KeyCmp(key)`".
  This is the equivalence that the documentation (line 76) states for its
  two examples.
- **Examples.** Both examples from the doc comment are proved about the
  model.

## Model

| member | source | states |
|---|---|---|
| Ordering.IsTotalPreorder | src/use_sorted.rs:97 | what `sort_by` asks of `cmp_fn`: swapping the operands reverses the outcome, and "not greater" is transitive |
| Ordering.IsTotalOrder | src/use_sorted.rs:80 | an `Ord` whose `Eq` is structural equality, as for the `i32` of line 21: a total preorder whose `Equal` is identity |
| Ordering.IntCmp | src/use_sorted.rs:87 | `Ord::cmp` on integers, the comparison `iterable.sort()` uses for the `i32` elements of the first example |
| Ordering.KeyCmp | src/use_sorted.rs:120 | the comparator that `sort_by_key` sorts by: compare `key(a)` with `key(b)` |
| Ordering.PreorderLaws | src/use_sorted.rs:97 | under a comparator obeying the `sort_by` laws, `Equal` is reflexive and transitive, and strict and non-strict order chain |
| Ordering.IntCmpIsTotalOrder | src/use_sorted.rs:80 | the natural integer order is an `Ord` whose `Eq` is structural equality: a total preorder whose `Equal` is identity |
| Ordering.KeyCmpIsTotalPreorder | src/use_sorted.rs:113-114 | comparing by an integer key is a total preorder; two elements compare `Equal` iff their keys are equal, and not `Greater` iff key(a) <= key(b) |
| StableSort.Insert | src/use_sorted.rs:103 | inserting one element adds exactly that element to the multiset |
| StableSort.Sort | src/use_sorted.rs:103 | the reference stable sort returns a permutation of its input |
| StableSort.EquivToAppend | src/use_sorted.rs:103 | the subsequence of elements equivalent to `x` distributes over concatenation |
| StableSort.SwapKeepsClasses | src/use_sorted.rs:103 | swapping an adjacent pair that is not `Equal` keeps every equivalence class in order and keeps the multiset |
| StableSort.InsertSorted | src/use_sorted.rs:103 | inserting into a sorted sequence yields a sorted sequence |
| StableSort.SortSorted | src/use_sorted.rs:103 | the reference sort's result is sorted by the comparator |
| StableSort.InsertKeepsClasses | src/use_sorted.rs:103 | insertion keeps the relative order of equivalent elements (stable) |
| StableSort.SortKeepsClasses | src/use_sorted.rs:103 | the reference sort is stable: every equivalence class appears in its input order |
| StableSort.SortedSameClassesUnique | src/use_sorted.rs:103 | two sequences that are both sorted and have identical equivalence classes are equal |
| StableSort.SortCharacterized | src/use_sorted.rs:103 | a sequence is sorted and stable with respect to `s` iff it equals `Sort(s)`; such a sequence is a permutation of `s` |
| StableSort.SortedByAdjacent | src/use_sorted.rs:103 | sorted (every pair in order) iff every adjacent pair compares not `Greater` |
| StableSort.SortOfSorted | src/use_sorted.rs:103 | sorting an already sorted sequence leaves it unchanged |
| StableSort.SortIdempotent | src/use_sorted.rs:101-105 | sorting twice is sorting once, so recomputing the view on a sorted source changes nothing |
| StableSort.SameComparatorSameSort | src/use_sorted.rs:103 | two comparators that agree on every pair sort every sequence identically |
| StableSort.InsertionSort | src/use_sorted.rs:103 | the in-place sort leaves the array sorted, a permutation of its old contents, stable, and equal to `Sort` of its old contents |
| SortedView.SortedClone | src/use_sorted.rs:101-105 | a fresh array holding the stable sort of the source; the source is unchanged |
| SortedView.ClassIsCopies | src/use_sorted.rs:80 | under a total preorder whose `Equal` is identity, the class of `x` is exactly the copies of `x` |
| SortedView.TotalOrderSortCharacterized | src/use_sorted.rs:85-89 | for a total preorder whose `Equal` is identity, a sequence is sorted and a permutation of `s` iff it is the sort of `s`; stability adds nothing |
| SortedView.NaturalSortCharacterized | src/use_sorted.rs:85-89 | a sequence of integers is ascending and a permutation of `s` iff it is the natural sort of `s` |
| SortedView.UseSorted | src/use_sorted.rs:77-90 | for any `Ord` comparison (a total preorder, `Equal` possibly coarser than identity), the view is a fresh sorted, stable permutation of the source, equal to `Sort(source, cmp)`, and the source is unchanged |
| SortedView.UseSortedBy | src/use_sorted.rs:93-106 | the view is a fresh, stable permutation of the source in which no adjacent (indeed no) pair compares `Greater`; the source is unchanged |
| SortedView.WithKey | src/use_sorted.rs:120 | the elements with key `k` are those elements of `s` with that key |
| SortedView.WithKeyIsClass | src/use_sorted.rs:120 | the elements with the key of `x` are the class of `x` under the key comparator |
| SortedView.WithAbsentKey | src/use_sorted.rs:120 | no element has a key that occurs nowhere |
| SortedView.KeyContractIsComparatorContract | src/use_sorted.rs:120 | keys never decreasing iff sorted by the key comparator; equal keys keeping order iff stable under it |
| SortedView.SortByKeyIsSortBy | src/use_sorted.rs:76 | `sort_by_key(k)` and `sort_by` with `k(a).cmp(&k(b))` have the same result: the key contract holds iff the result is `Sort(s, KeyCmp(k))` |
| SortedView.WithUniqueKeyIsCopies | src/use_sorted.rs:120 | when only `y` has its key, the elements with that key are the copies of `y` |
| SortedView.DistinctKeysSortCharacterized | src/use_sorted.rs:118-122 | with pairwise different keys, the result is ordered by key and a permutation of `s` iff it is the key sort of `s` |
| SortedView.UseSortedByKey | src/use_sorted.rs:109-123 | the view is a fresh permutation of the source with keys never decreasing and equal keys in source order, equal to the sort by the key comparator; the source is unchanged |
| UseSortedExamples.Person | src/use_sorted.rs:33-37 | the `Person` record of the second example, with its name and age |
| UseSortedExamples.Age | src/use_sorted.rs:63 | the key closure of the second example, which maps a person to `person.age` |
| UseSortedExamples.CompareAges | src/use_sorted.rs:69 | the compare closure of the second example, `p1.age.cmp(&p2.age)` |
| UseSortedExamples.NaturalExample | src/use_sorted.rs:20-21 | `[10, 3, 5, 7, 2, 1, 8, 6, 9, 4]` sorts to `[1, ..., 10]` |
| UseSortedExamples.NaturalDemo | src/use_sorted.rs:20-21 | `use_sorted` on that vector yields `[1, ..., 10]` |
| UseSortedExamples.PersonsByKeyExample | src/use_sorted.rs:41-64 | the four persons sorted by age are Jane (20), Jenny (22), Joe (30), John (40) |
| UseSortedExamples.PersonsByCompareExample | src/use_sorted.rs:66-70 | sorting with the compare function on ages gives the same order |
| UseSortedExamples.TiedAgesKeepOrder | src/use_sorted.rs:103 | two persons of the same age, sorted by age, stay in their input order whichever comes first |
| UseSortedExamples.PersonsDemo | src/use_sorted.rs:41-76 | `use_sorted_by_key` and `use_sorted_by` on the persons both yield Jane, Jenny, Joe, John |

## Left out

- The reactive runtime is not modelled: `Signal::derive`, tracking of the source signal, and recomputing on change. Each entry point is modelled as one recompute over one snapshot of the source.
- The `Into<Signal<I>>` conversion of the argument is not modelled, and the container type `I` is an array.
- The `Send`, `Sync`, `Clone`, `PartialEq` and `'static` bounds are not modelled. They concern threads and the runtime, not the result.
- The algorithm inside the standard library's sort (a merge sort/timsort hybrid) is not modelled. An insertion sort stands in for it. Because sorted plus stable determines the result, any stable sort gives the same output.
- Comparators and key functions that break the total-preorder laws are not modelled: `UseSortedBy` requires `IsTotalPreorder(cmp)`. With such a comparator Rust leaves the order unspecified and may panic.
- Side effects and panics inside the `FnMut` comparator or key function are not modelled. Both are pure Dafny functions.
- UseSortedByKey: `K: Ord` is modelled only on `int` keys, so the contract is stated for integer-valued key functions. A key type with a non-integer total order is not covered.
- Fixed-width integers are not modelled: the `u16` ages and the `i32` elements are unbounded `int`. Of those types only their order matters here, and no arithmetic is done on them.
