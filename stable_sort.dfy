/** The contract of Rust's stable `slice::sort_by`, which every entry point of
    the sorted view delegates to: the result is ordered by the comparator, and
    elements that compare `Equal` keep their input order. `Sort` is a reference
    definition of that contract (a functional insertion sort), and
    `InsertionSort` an in-place implementation proved to agree with it. */
module StableSort {
  import opened Ordering

  /** No element of `s` compares `Greater` than an element after it. */
  predicate SortedBy<T>(s: seq<T>, cmp: (T, T) -> Ordering) {
    forall i, j | 0 <= i < j < |s| :: cmp(s[i], s[j]) != Greater
  }

  /** The elements of `s` that compare `Equal` to `x`, in their order in `s`. */
  function EquivTo<T>(s: seq<T>, x: T, cmp: (T, T) -> Ordering): (r: seq<T>)
    ensures |r| <= |s|
    ensures forall y | y in r :: y in s && cmp(y, x) == Equal
    ensures forall y | y in s && cmp(y, x) == Equal :: y in r
  {
    if s == [] then []
    else (if cmp(s[0], x) == Equal then [s[0]] else []) + EquivTo(s[1..], x, cmp)
  }

  /** `r` holds the elements of every `Equal`-class of `s` in the order `s`
      holds them: the stability guarantee of a stable sort. */
  ghost predicate StableBy<T(!new)>(s: seq<T>, r: seq<T>, cmp: (T, T) -> Ordering) {
    forall x :: EquivTo(r, x, cmp) == EquivTo(s, x, cmp)
  }

  /** Places `x` before the first element of the sorted `s` that it does not
      exceed, so after every element that is smaller and before all others. */
  function Insert<T>(x: T, s: seq<T>, cmp: (T, T) -> Ordering): (r: seq<T>)
    ensures multiset(r) == multiset(s) + multiset{x}
  {
    if s == [] || cmp(x, s[0]) != Greater then [x] + s
    else assert s == [s[0]] + s[1..]; [s[0]] + Insert(x, s[1..], cmp)
  }

  /** Reference stable sort: inserts the elements one by one, last first. */
  function Sort<T>(s: seq<T>, cmp: (T, T) -> Ordering): (r: seq<T>)
    ensures multiset(r) == multiset(s)
  {
    if s == [] then []
    else assert s == [s[0]] + s[1..]; Insert(s[0], Sort(s[1..], cmp), cmp)
  }

  lemma {:induction false} EquivToAppend<T>(a: seq<T>, b: seq<T>, x: T, cmp: (T, T) -> Ordering)
    ensures EquivTo(a + b, x, cmp) == EquivTo(a, x, cmp) + EquivTo(b, x, cmp)
  {
    if a == [] {
      assert a + b == b;
    } else {
      assert (a + b)[1..] == a[1..] + b;
      EquivToAppend(a[1..], b, x, cmp);
    }
  }

  /** `s` with the neighbours at `k` and `k + 1` exchanged. */
  function Swapped<T>(s: seq<T>, k: nat): (r: seq<T>)
    requires k + 1 < |s|
    ensures |r| == |s| && r[k] == s[k + 1] && r[k + 1] == s[k]
    ensures forall m | 0 <= m < |s| && m != k && m != k + 1 :: r[m] == s[m]
  {
    s[k := s[k + 1]][k + 1 := s[k]]
  }

  lemma PairClasses<T>(a: T, b: T, x: T, cmp: (T, T) -> Ordering)
    requires !(cmp(a, x) == Equal && cmp(b, x) == Equal)
    ensures EquivTo([a, b], x, cmp) == EquivTo([b, a], x, cmp)
  {
    assert [a, b][1..] == [b] && [b, a][1..] == [a];
    assert [a][1..] == [] && [b][1..] == [];
  }

  /** Exchanging two neighbours that do not compare `Equal` keeps every class
      in order and every element in the sequence. */
  lemma SwapKeepsClasses<T(!new)>(s: seq<T>, k: nat, cmp: (T, T) -> Ordering)
    requires IsTotalPreorder(cmp)
    requires k + 1 < |s| && cmp(s[k], s[k + 1]) != Equal
    ensures StableBy(s, Swapped(s, k), cmp)
    ensures multiset(Swapped(s, k)) == multiset(s)
  {
    var p, a, b, q := s[..k], s[k], s[k + 1], s[k + 2..];
    assert s == p + [a, b] + q;
    assert Swapped(s, k) == p + [b, a] + q;
    forall x
      ensures EquivTo(p + [b, a] + q, x, cmp) == EquivTo(p + [a, b] + q, x, cmp)
    {
      if cmp(a, x) == Equal && cmp(b, x) == Equal {
        PreorderLaws(cmp, a, x, b);
        assert false;
      }
      PairClasses(a, b, x, cmp);
      EquivToAppend(p + [a, b], q, x, cmp);
      EquivToAppend(p, [a, b], x, cmp);
      EquivToAppend(p + [b, a], q, x, cmp);
      EquivToAppend(p, [b, a], x, cmp);
    }
  }

  /** Every element of a sorted sequence is at least its first element. */
  lemma HeadIsLeast<T(!new)>(r: seq<T>, y: T, cmp: (T, T) -> Ordering)
    requires IsTotalPreorder(cmp)
    requires SortedBy(r, cmp) && y in r
    ensures cmp(r[0], y) != Greater
  {
    var k :| 0 <= k < |r| && r[k] == y;
    PreorderLaws(cmp, y, y, y);
  }

  lemma {:induction false} InsertSorted<T(!new)>(x: T, s: seq<T>, cmp: (T, T) -> Ordering)
    requires IsTotalPreorder(cmp)
    requires SortedBy(s, cmp)
    ensures SortedBy(Insert(x, s, cmp), cmp)
  {
    if s == [] || cmp(x, s[0]) != Greater {
      var r := [x] + s;
      forall i, j | 0 <= i < j < |r|
        ensures cmp(r[i], r[j]) != Greater
      {
        if i == 0 && j > 1 {
          assert cmp(s[0], s[j - 1]) != Greater;
        }
      }
    } else {
      var t := Insert(x, s[1..], cmp);
      InsertSorted(x, s[1..], cmp);
      forall y | y in t
        ensures cmp(s[0], y) != Greater
      {
        assert y in multiset(t);
        if y != x {
          assert y in s[1..];
          var k :| 0 <= k < |s[1..]| && s[1..][k] == y;
          assert s[k + 1] == y;
        }
      }
      var r := [s[0]] + t;
      forall i, j | 0 <= i < j < |r|
        ensures cmp(r[i], r[j]) != Greater
      {
        if i == 0 {
          assert r[j] in t;
        } else {
          assert r[i] == t[i - 1] && r[j] == t[j - 1];
        }
      }
    }
  }

  /** The reference sort yields a sorted sequence. */
  lemma {:induction false} SortSorted<T(!new)>(s: seq<T>, cmp: (T, T) -> Ordering)
    requires IsTotalPreorder(cmp)
    ensures SortedBy(Sort(s, cmp), cmp)
  {
    if s != [] {
      SortSorted(s[1..], cmp);
      InsertSorted(s[0], Sort(s[1..], cmp), cmp);
    }
  }

  lemma {:induction false} InsertKeepsClasses<T(!new)>(x: T, s: seq<T>, cmp: (T, T) -> Ordering)
    requires IsTotalPreorder(cmp)
    ensures StableBy([x] + s, Insert(x, s, cmp), cmp)
  {
    if s != [] && cmp(x, s[0]) == Greater {
      var t := Insert(x, s[1..], cmp);
      InsertKeepsClasses(x, s[1..], cmp);
      SwapKeepsClasses([x] + s, 0, cmp);
      assert Swapped([x] + s, 0) == [s[0]] + ([x] + s[1..]);
      forall y
        ensures EquivTo([s[0]] + t, y, cmp) == EquivTo([x] + s, y, cmp)
      {
        EquivToAppend([s[0]], t, y, cmp);
        EquivToAppend([s[0]], [x] + s[1..], y, cmp);
      }
    }
  }

  /** The reference sort is stable. */
  lemma {:induction false} SortKeepsClasses<T(!new)>(s: seq<T>, cmp: (T, T) -> Ordering)
    requires IsTotalPreorder(cmp)
    ensures StableBy(s, Sort(s, cmp), cmp)
  {
    if s != [] {
      var t := Sort(s[1..], cmp);
      SortKeepsClasses(s[1..], cmp);
      InsertKeepsClasses(s[0], t, cmp);
      assert s == [s[0]] + s[1..];
      forall y
        ensures EquivTo(Sort(s, cmp), y, cmp) == EquivTo(s, y, cmp)
      {
        EquivToAppend([s[0]], t, y, cmp);
        EquivToAppend([s[0]], s[1..], y, cmp);
      }
    }
  }

  lemma OwnClassNonEmpty<T(!new)>(s: seq<T>, cmp: (T, T) -> Ordering)
    requires IsTotalPreorder(cmp) && s != []
    ensures EquivTo(s, s[0], cmp) != []
  {
    PreorderLaws(cmp, s[0], s[0], s[0]);
  }

  /** Two sorted sequences whose `Equal`-classes appear in the same order are
      identical: sortedness and stability leave a stable sort no choice. */
  lemma {:induction false} SortedSameClassesUnique<T(!new)>(r1: seq<T>, r2: seq<T>, cmp: (T, T) -> Ordering)
    requires IsTotalPreorder(cmp)
    requires SortedBy(r1, cmp) && SortedBy(r2, cmp)
    requires StableBy(r1, r2, cmp)
    ensures r1 == r2
    decreases |r1|
  {
    if r1 == [] || r2 == [] {
      if r1 != [] {
        OwnClassNonEmpty(r1, cmp);
        assert false;
      } else if r2 != [] {
        OwnClassNonEmpty(r2, cmp);
        assert false;
      }
    } else {
      var a, b := r1[0], r2[0];
      PreorderLaws(cmp, a, a, a);
      PreorderLaws(cmp, b, b, b);
      // each head has a class member in the other sequence, which the other head does not exceed
      assert b in EquivTo(r1, b, cmp);
      var c := EquivTo(r1, b, cmp)[0];
      HeadIsLeast(r1, c, cmp);
      assert a in EquivTo(r2, a, cmp);
      var d := EquivTo(r2, a, cmp)[0];
      HeadIsLeast(r2, d, cmp);
      assert cmp(a, b) == Equal;
      assert cmp(b, a) == Equal;
      assert EquivTo(r1, a, cmp) == [a] + EquivTo(r1[1..], a, cmp);
      assert EquivTo(r2, a, cmp) == [b] + EquivTo(r2[1..], a, cmp);
      assert a == EquivTo(r1, a, cmp)[0] == EquivTo(r2, a, cmp)[0] == b;
      forall x
        ensures EquivTo(r2[1..], x, cmp) == EquivTo(r1[1..], x, cmp)
      {
        var p := if cmp(a, x) == Equal then [a] else [];
        assert EquivTo(r1, x, cmp) == p + EquivTo(r1[1..], x, cmp);
        assert EquivTo(r2, x, cmp) == p + EquivTo(r2[1..], x, cmp);
        assert EquivTo(r1[1..], x, cmp) == (p + EquivTo(r1[1..], x, cmp))[|p|..];
        assert EquivTo(r2[1..], x, cmp) == (p + EquivTo(r2[1..], x, cmp))[|p|..];
      }
      assert SortedBy(r1[1..], cmp) by {
        forall i, j | 0 <= i < j < |r1| - 1 ensures cmp(r1[1..][i], r1[1..][j]) != Greater {
          assert r1[1..][i] == r1[i + 1] && r1[1..][j] == r1[j + 1];
        }
      }
      assert SortedBy(r2[1..], cmp) by {
        forall i, j | 0 <= i < j < |r2| - 1 ensures cmp(r2[1..][i], r2[1..][j]) != Greater {
          assert r2[1..][i] == r2[i + 1] && r2[1..][j] == r2[j + 1];
        }
      }
      SortedSameClassesUnique(r1[1..], r2[1..], cmp);
      assert r1 == [a] + r1[1..] && r2 == [b] + r2[1..];
    }
  }

  /** A sequence is the stable sort of `s` if and only if it is sorted and
      keeps the order of every `Equal`-class of `s`; such a sequence is then a
      permutation of `s`. */
  lemma SortCharacterized<T(!new)>(s: seq<T>, r: seq<T>, cmp: (T, T) -> Ordering)
    requires IsTotalPreorder(cmp)
    ensures SortedBy(r, cmp) && StableBy(s, r, cmp) <==> r == Sort(s, cmp)
    ensures SortedBy(r, cmp) && StableBy(s, r, cmp) ==> multiset(r) == multiset(s)
  {
    SortSorted(s, cmp);
    SortKeepsClasses(s, cmp);
    if SortedBy(r, cmp) && StableBy(s, r, cmp) {
      SortedSameClassesUnique(r, Sort(s, cmp), cmp);
    }
  }

  lemma {:induction false} ChainNotGreater<T(!new)>(s: seq<T>, i: nat, j: nat, cmp: (T, T) -> Ordering)
    requires IsTotalPreorder(cmp)
    requires i <= j < |s|
    requires forall k | 0 <= k < |s| - 1 :: cmp(s[k], s[k + 1]) != Greater
    ensures cmp(s[i], s[j]) != Greater
    decreases j - i
  {
    if i == j {
      PreorderLaws(cmp, s[i], s[i], s[i]);
    } else {
      ChainNotGreater(s, i + 1, j, cmp);
      assert cmp(s[i], s[i + 1]) != Greater;
    }
  }

  /** With a total preorder, checking neighbours suffices: the sequence is
      sorted if and only if no element compares `Greater` than the next one. */
  lemma SortedByAdjacent<T(!new)>(s: seq<T>, cmp: (T, T) -> Ordering)
    requires IsTotalPreorder(cmp)
    ensures SortedBy(s, cmp) <==> forall k | 0 <= k < |s| - 1 :: cmp(s[k], s[k + 1]) != Greater
  {
    if forall k | 0 <= k < |s| - 1 :: cmp(s[k], s[k + 1]) != Greater {
      forall i, j | 0 <= i < j < |s|
        ensures cmp(s[i], s[j]) != Greater
      {
        ChainNotGreater(s, i, j, cmp);
      }
    }
  }

  /** Sorting an already sorted sequence leaves it unchanged. */
  lemma SortOfSorted<T(!new)>(s: seq<T>, cmp: (T, T) -> Ordering)
    requires IsTotalPreorder(cmp)
    requires SortedBy(s, cmp)
    ensures Sort(s, cmp) == s
  {
    SortCharacterized(s, s, cmp);
  }

  /** Sorting twice is sorting once. */
  lemma SortIdempotent<T(!new)>(s: seq<T>, cmp: (T, T) -> Ordering)
    requires IsTotalPreorder(cmp)
    ensures Sort(Sort(s, cmp), cmp) == Sort(s, cmp)
  {
    SortSorted(s, cmp);
    SortOfSorted(Sort(s, cmp), cmp);
  }

  /** While the element at `j` sinks into the sorted prefix `s[..i + 1]`:
      the prefix without position `j` is sorted, and the element at `j` is
      smaller than everything after it in the prefix. */
  ghost predicate Sinking<T>(s: seq<T>, j: nat, i: nat, cmp: (T, T) -> Ordering) {
    && j <= i < |s|
    && (forall k, l | 0 <= k < l <= i && k != j && l != j :: cmp(s[k], s[l]) != Greater)
    && (forall l | j < l <= i :: cmp(s[j], s[l]) == Less)
  }

  lemma SinkStart<T>(s: seq<T>, i: nat, cmp: (T, T) -> Ordering)
    requires i < |s| && SortedBy(s[..i], cmp)
    ensures Sinking(s, i, i, cmp)
  {
    forall k, l | 0 <= k < l < i
      ensures cmp(s[k], s[l]) != Greater
    {
      assert s[..i][k] == s[k] && s[..i][l] == s[l];
    }
  }

  lemma SinkStep<T(!new)>(s: seq<T>, j: nat, i: nat, cmp: (T, T) -> Ordering)
    requires IsTotalPreorder(cmp)
    requires Sinking(s, j, i, cmp) && 0 < j && cmp(s[j - 1], s[j]) == Greater
    ensures Sinking(Swapped(s, j - 1), j - 1, i, cmp)
  {
    var t := Swapped(s, j - 1);
    forall k, l | 0 <= k < l <= i && k != j - 1 && l != j - 1
      ensures cmp(t[k], t[l]) != Greater
    {
      if l == j {
        assert cmp(s[k], s[j - 1]) != Greater;
      } else if k == j {
        assert cmp(s[j - 1], s[l]) != Greater;
      } else {
        assert cmp(s[k], s[l]) != Greater;
      }
    }
  }

  lemma SinkDone<T(!new)>(s: seq<T>, j: nat, i: nat, cmp: (T, T) -> Ordering)
    requires IsTotalPreorder(cmp)
    requires Sinking(s, j, i, cmp) && (j == 0 || cmp(s[j - 1], s[j]) != Greater)
    ensures SortedBy(s[..i + 1], cmp)
  {
    forall k, l | 0 <= k < l <= i
      ensures cmp(s[k], s[l]) != Greater
    {
      if l == j && k < j - 1 {
        assert cmp(s[k], s[j - 1]) != Greater;
      } else if k == j {
        assert cmp(s[j], s[l]) == Less;
      }
    }
  }

  lemma {:induction false} InsertSameComparator<T(!new)>(x: T, s: seq<T>, c1: (T, T) -> Ordering, c2: (T, T) -> Ordering)
    requires forall a, b :: c1(a, b) == c2(a, b)
    ensures Insert(x, s, c1) == Insert(x, s, c2)
  {
    if s != [] {
      InsertSameComparator(x, s[1..], c1, c2);
    }
  }

  /** The sort depends only on the outcomes of the comparator, not on how the
      comparator is written. */
  lemma {:induction false} SameComparatorSameSort<T(!new)>(s: seq<T>, c1: (T, T) -> Ordering, c2: (T, T) -> Ordering)
    requires forall a, b :: c1(a, b) == c2(a, b)
    ensures Sort(s, c1) == Sort(s, c2)
  {
    if s != [] {
      SameComparatorSameSort(s[1..], c1, c2);
      InsertSameComparator(s[0], Sort(s[1..], c1), c1, c2);
    }
  }

  /** Stable in-place insertion sort, standing in for `slice::sort_by`: each
      element sinks left past the elements that compare `Greater` than it, and
      never past one that compares `Equal`. */
  method InsertionSort<T(!new)>(a: array<T>, cmp: (T, T) -> Ordering)
    requires IsTotalPreorder(cmp)
    modifies a
    ensures SortedBy(a[..], cmp)
    ensures multiset(a[..]) == multiset(old(a[..]))
    ensures StableBy(old(a[..]), a[..], cmp)
    ensures a[..] == Sort(old(a[..]), cmp)
  {
    var i := 0;
    while i < a.Length
      invariant 0 <= i <= a.Length
      invariant SortedBy(a[..i], cmp)
      invariant multiset(a[..]) == multiset(old(a[..]))
      invariant StableBy(old(a[..]), a[..], cmp)
    {
      var j := i;
      SinkStart(a[..], i, cmp);
      while j > 0 && cmp(a[j - 1], a[j]) == Greater
        invariant Sinking(a[..], j, i, cmp)
        invariant multiset(a[..]) == multiset(old(a[..]))
        invariant StableBy(old(a[..]), a[..], cmp)
      {
        ghost var before := a[..];
        a[j - 1], a[j] := a[j], a[j - 1];
        assert a[..] == Swapped(before, j - 1);
        SwapKeepsClasses(before, j - 1, cmp);
        SinkStep(before, j, i, cmp);
        j := j - 1;
      }
      SinkDone(a[..], j, i, cmp);
      i := i + 1;
    }
    assert a[..] == a[..a.Length];
    SortCharacterized(old(a[..]), a[..], cmp);
  }
}
